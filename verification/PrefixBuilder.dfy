/**
 djw_build_prefix: code lengths of bounded size for given frequencies, from trees built with a heap
 and, while a length overflows, from rescaled weights.
 */
module PrefixBuilder {
  import opened Arithmetic
  import opened Bytes
  import opened Heap
  import opened Huffman

  // ----- the forest that the heap and the entries stand for

  function Weights(ents: seq<Entry>, roots: multiset<nat>): (w: seq<nat>)
    ensures |w| == |ents|
  {
    seq(|ents|, i requires 0 <= i < |ents| => if i in roots then ents[i].freq else 0)
  }

  function Depths(ents: seq<Entry>): (r: seq<nat>)
    ensures |r| == |ents|
  {
    seq(|ents|, i requires 0 <= i < |ents| => ents[i].depth)
  }

  /** Every entry of the heap is a root of positive weight, once. */
  ghost predicate Rooted(ents: seq<Entry>, roots: multiset<nat>, size: nat) {
    && 0 < size <= |ents|
    && (forall e :: roots[e] <= 1)
    && (forall e :: e in roots ==> 0 < e < size && ents[e].freq > 0 && ents[e].parent == 0)
  }

  /** Every entry of positive weight without a parent is a root. */
  ghost predicate Complete(ents: seq<Entry>, roots: multiset<nat>, size: nat)
    requires size <= |ents|
  {
    forall e :: 0 < e < size && ents[e].freq > 0 && ents[e].parent == 0 ==> e in roots
  }

  /** Parents come later and are deeper. */
  ghost predicate Linked(ents: seq<Entry>, size: nat) {
    && size <= |ents|
    && (forall i :: 0 <= i < size && ents[i].parent != 0 ==>
          i < ents[i].parent < size && ents[i].depth < ents[ents[i].parent].depth && ents[ents[i].parent].freq > 0)
  }

  ghost predicate Recorded(m: Move, ents: seq<Entry>, size: nat)
    requires size <= |ents|
  {
    && 0 < m.c < size && m.a < size && m.b < size
    && ents[m.a].parent == m.c && ents[m.b].parent == m.c
  }

  /** The forest of the given roots, and how it came about: `w0` are the weights it began with. */
  ghost predicate Traced(ents: seq<Entry>, roots: multiset<nat>, size: nat, w0: seq<nat>, moves: seq<Move>,
                         floor: nat) {
    && Rooted(ents, roots, size) && Complete(ents, roots, size) && Linked(ents, size)
    && Path(w0, moves, Weights(ents, roots))
    && (forall m :: m in moves ==> Recorded(m, ents, size))
    && Heavy(Weights(ents, roots), Depths(ents), floor)
  }

  ghost predicate Heaped(h: seq<nat>, ents: seq<Entry>, last: nat) {
    IsHeap(h, ents, last) && h[0] == 0 && 0 < |ents| && ents[0].freq == 0 && ents[0].depth == 0
  }

  /** The state of the tree building. */
  ghost predicate Growing(h: seq<nat>, ents: seq<Entry>, last: nat, size: nat, w0: seq<nat>, moves: seq<Move>,
                          floor: nat) {
    && Heaped(h, ents, last)
    && Traced(ents, Contents(h, last), size, w0, moves, floor)
  }

  lemma HeapFrame(h: seq<nat>, ents: seq<Entry>, ents': seq<Entry>, last: nat)
    requires IsHeap(h, ents, last) && |ents'| == |ents|
    requires forall i :: 0 <= i <= last ==>
               ents'[h[i]].freq == ents[h[i]].freq && ents'[h[i]].depth == ents[h[i]].depth
    ensures IsHeap(h, ents', last)
  {
    forall i | 2 <= i <= last ensures Ordered(h, ents', i) {
      assert Ordered(h, ents, i);
    }
  }

  /** The entries after `a` and `b` have been joined under entry `c`. */
  function Joined(ents: seq<Entry>, a: nat, b: nat, c: nat): (r: seq<Entry>)
    requires a < |ents| && b < |ents| && c < |ents|
    ensures |r| == |ents|
  {
    ents[c := Entry(1 + Max(ents[a].depth, ents[b].depth), ents[a].freq + ents[b].freq, 0)]
        [a := ents[a].(parent := c)][b := ents[b].(parent := c)]
  }

  /** Of all the roots `a` was least, of the rest `b`. */
  ghost predicate Taken(ents: seq<Entry>, all: multiset<nat>, a: nat, b: nat, size: nat) {
    && a in all && b in all - multiset{a} && a < |ents| && b < |ents|
    && (forall e :: e in all ==> e < |ents| && !Less(ents[e], ents[a]))
    && (forall e :: e in all - multiset{a} ==> e < |ents| && !Less(ents[e], ents[b]))
  }

  /** Two least roots, taken out one after the other, are the two lightest of the forest. */
  lemma TakenAreLightest(ents: seq<Entry>, all: multiset<nat>, a: nat, b: nat, size: nat)
    requires Rooted(ents, all, size) && Taken(ents, all, a, b, size)
    ensures a != b && Lightest(Weights(ents, all), a, b)
  {
    var w := Weights(ents, all);
    assert all[a] == 1;
    assert a !in all - multiset{a};
    forall k | 0 <= k < |w| && w[k] > 0 && k != a && k != b ensures w[a] <= w[k] && w[b] <= w[k] {
      assert k in all - multiset{a};
    }
  }

  /** Roots `a` and `b` have given way to root `c`. */
  ghost predicate Replaced(all: multiset<nat>, rest: multiset<nat>, a: nat, b: nat, c: nat) {
    forall e :: rest[e] == if e == a || e == b then 0 else if e == c then 1 else all[e]
  }

  lemma AllReplaced(ents: seq<Entry>, all: multiset<nat>, left: multiset<nat>, rest: multiset<nat>, a: nat, b: nat,
                    c: nat)
    requires Rooted(ents, all, c) && left + multiset{b} + multiset{a} == all && rest == left + multiset{c}
    ensures Replaced(all, rest, a, b, c)
  {
    assert c !in all && a in all && b in all;
    assert all[a] <= 1 && all[b] <= 1;
  }

  lemma JoinedRooted(ents: seq<Entry>, all: multiset<nat>, rest: multiset<nat>, a: nat, b: nat, size: nat)
    requires Rooted(ents, all, size) && size < |ents| && a in all && b in all && a != b
    requires Replaced(all, rest, a, b, size)
    ensures Rooted(Joined(ents, a, b, size), rest, size + 1)
  {
    forall e ensures rest[e] <= 1 { }
    forall e | e in rest
      ensures 0 < e < size + 1 && Joined(ents, a, b, size)[e].freq > 0 && Joined(ents, a, b, size)[e].parent == 0
    {
      assert rest[e] > 0;
      assert e != a && e != b;
      if e != size { assert e in all; }
    }
  }

  lemma JoinedComplete(ents: seq<Entry>, all: multiset<nat>, rest: multiset<nat>, a: nat, b: nat, size: nat)
    requires 0 < a < size && 0 < b < size < |ents| && Complete(ents, all, size) && Replaced(all, rest, a, b, size)
    ensures Complete(Joined(ents, a, b, size), rest, size + 1)
  {
    forall e | 0 < e < size + 1 && Joined(ents, a, b, size)[e].freq > 0 && Joined(ents, a, b, size)[e].parent == 0
      ensures e in rest
    {
      assert e != a && e != b;
      if e != size { assert e in all; }
      assert rest[e] > 0;
    }
  }

  /** One weight of the joined forest. */
  lemma JoinedWeight(ents: seq<Entry>, all: multiset<nat>, rest: multiset<nat>, a: nat, b: nat, size: nat, i: nat)
    requires a < |ents| && b < |ents| && size < |ents| && a != b && a != size && b != size && i < |ents|
    requires rest[i] == if i == a || i == b then 0 else if i == size then 1 else all[i]
    ensures Weights(Joined(ents, a, b, size), rest)[i]
            == if i == a || i == b then 0 else if i == size then ents[a].freq + ents[b].freq else Weights(ents, all)[i]
  {
  }

  lemma JoinedWeights(ents: seq<Entry>, all: multiset<nat>, rest: multiset<nat>, a: nat, b: nat, size: nat)
    requires Rooted(ents, all, size) && size < |ents| && a in all && b in all && a != b
    requires Lightest(Weights(ents, all), a, b) && Replaced(all, rest, a, b, size)
    ensures Merge(Weights(ents, all), Weights(Joined(ents, a, b, size), rest), a, b, size)
  {
    hide *;
    WeightsAt(ents, all, a, b, size);
    var w: seq<nat> := Weights(ents, all);
    var v: seq<nat> := Weights(Joined(ents, a, b, size), rest);
    forall i: nat | i < |ents|
      ensures v[i] == if i == a || i == b then 0 else if i == size then w[a] + w[b] else w[i]
    {
      ReplacedAt(all, rest, a, b, size, i);
      JoinedWeight(ents, all, rest, a, b, size, i);
    }
    SameSeq(w, v, a, b, size);
  }

  lemma WeightsAt(ents: seq<Entry>, all: multiset<nat>, a: nat, b: nat, size: nat)
    requires Rooted(ents, all, size) && size < |ents| && a in all && b in all
    ensures 0 < a < size && 0 < b < size && ents[a].freq == Weights(ents, all)[a]
            && ents[b].freq == Weights(ents, all)[b]
    ensures Weights(ents, all)[size] == 0
  {
    assert size !in all;
  }

  lemma ReplacedAt(all: multiset<nat>, rest: multiset<nat>, a: nat, b: nat, c: nat, i: nat)
    requires Replaced(all, rest, a, b, c)
    ensures rest[i] == if i == a || i == b then 0 else if i == c then 1 else all[i]
  {
  }

  lemma SameSeq(w: seq<nat>, v: seq<nat>, a: nat, b: nat, c: nat)
    requires |w| == |v| && a < |w| && b < |w| && c < |w| && a != b && a != c && b != c
    requires forall i: nat :: i < |w| ==> v[i] == if i == a || i == b then 0 else if i == c then w[a] + w[b] else w[i]
    requires Lightest(w, a, b) && w[c] == 0
    ensures Merge(w, v, a, b, c)
  {
    hide Lightest;
  }

  lemma JoinedDepths(ents: seq<Entry>, a: nat, b: nat, c: nat)
    requires a < |ents| && b < |ents| && c < |ents| && a != c && b != c
    ensures Depths(Joined(ents, a, b, c)) == Depths(ents)[c := 1 + Max(ents[a].depth, ents[b].depth)]
  {
  }

  lemma JoinedLinked(ents: seq<Entry>, a: nat, b: nat, size: nat, moves: seq<Move>)
    requires Linked(ents, size) && 0 < a < size && 0 < b < size < |ents| && a != b
    requires ents[a].parent == 0 && ents[b].parent == 0 && ents[a].freq > 0
    requires forall m :: m in moves ==> Recorded(m, ents, size)
    ensures Linked(Joined(ents, a, b, size), size + 1)
    ensures forall m :: m in moves ==> Recorded(m, Joined(ents, a, b, size), size + 1)
  {
    var j := Joined(ents, a, b, size);
    forall m | m in moves ensures Recorded(m, j, size + 1) {
      assert Recorded(m, ents, size);
    }
  }

  /** One round of the tree building, all but the heap. */
  lemma TracedStep(ents: seq<Entry>, all: multiset<nat>, rest: multiset<nat>, size: nat, w0: seq<nat>, moves: seq<Move>,
                   floor: nat, a: nat, b: nat) returns (moves': seq<Move>, floor': nat)
    requires Traced(ents, all, size, w0, moves, floor) && size < |ents|
    requires a < |ents| && b < |ents| && Taken(ents, all, a, b, size)
    requires Replaced(all, rest, a, b, size)
    ensures Traced(Joined(ents, a, b, size), rest, size + 1, w0, moves', floor')
  {
    hide Linked, Heavy, Lightest, Merge, Weights, Joined, Replaced, Rooted, Complete, Taken, Path, Recorded;
    var joined := Joined(ents, a, b, size);
    MembersDistinct(ents, all, size, a, b);
    TakenAreLightest(ents, all, a, b, size);
    JoinedRooted(ents, all, rest, a, b, size);
    JoinedComplete(ents, all, rest, a, b, size);
    JoinedWeights(ents, all, rest, a, b, size);
    JoinedDepths(ents, a, b, size);
    JoinedLinked(ents, a, b, size, moves);
    floor' := MergeHeavy(Weights(ents, all), Weights(joined, rest), a, b, size, Depths(ents), floor);
    moves' := PathExtends(w0, moves, Weights(ents, all), Weights(joined, rest), a, b, size);
    JoinedRecorded(ents, a, b, size, Weights(ents, all));
  }

  lemma MembersDistinct(ents: seq<Entry>, all: multiset<nat>, size: nat, a: nat, b: nat)
    requires Rooted(ents, all, size) && Taken(ents, all, a, b, size)
    ensures a != b && a in all && b in all && 0 < a < size && 0 < b < size
    ensures ents[a].parent == 0 && ents[b].parent == 0 && ents[a].freq > 0
  {
    assert all[a] <= 1 && all[b] <= 1;
    assert size !in all;
  }

  lemma PathExtends(w0: seq<nat>, moves: seq<Move>, w: seq<nat>, v: seq<nat>, a: nat, b: nat, c: nat)
    returns (r: seq<Move>)
    requires Path(w0, moves, w) && Merge(w, v, a, b, c)
    ensures r == moves + [Move(w, a, b, c)] && Path(w0, r, v)
  {
    r := moves + [Move(w, a, b, c)];
    assert r[..|moves|] == moves;
  }

  lemma JoinedRecorded(ents: seq<Entry>, a: nat, b: nat, c: nat, w: seq<nat>)
    requires a < c && b < c && 0 < c < |ents| && a != b
    ensures Recorded(Move(w, a, b, c), Joined(ents, a, b, c), c + 1)
  {
  }

  lemma JoinedSentinel(ents: seq<Entry>, a: nat, b: nat, c: nat)
    requires 0 < a < |ents| && 0 < b < |ents| && 0 < c < |ents|
    ensures Joined(ents, a, b, c)[0] == ents[0]
  {
  }

  method MergeTwo(heap: array<nat>, ents: seq<Entry>, last: nat, size: nat,
                  ghost w0: seq<nat>, ghost moves: seq<Move>, ghost floor: nat)
    returns (ents': seq<Entry>, ghost moves': seq<Move>, ghost floor': nat)
    requires 2 <= last < heap.Length && size < |ents|
    requires Growing(heap[..], ents, last, size, w0, moves, floor)
    modifies heap
    ensures |ents'| == |ents| && Growing(heap[..], ents', last - 1, size + 1, w0, moves', floor')
    ensures forall i :: 0 <= i < |ents| && i != size ==> ents'[i].freq == ents[i].freq
  {
    hide IsHeap, Contents, Linked, Heavy, Weights, Depths, Rooted, Path, Less, Max, Ordered, Slots;
    ghost var h, all := heap[..], Contents(heap[..], last);
    var h1 := HeapExtract(heap, ents, last - 1);
    assert Contents(heap[..], last - 1) == all - multiset{h1};
    var h2 := HeapExtract(heap, ents, last - 2);
    assert Taken(ents, all, h1, h2, size);
    hide Taken;
    ents' := Joined(ents, h1, h2, size);
    ghost var left := Contents(heap[..], last - 2);
    TwoTaken(h, ents, last, size, heap[..], h1, h2);
    HeapInsert(heap, ents', last - 1, size);
    AllReplaced(ents, all, left, Contents(heap[..], last - 1), h1, h2, size);
    JoinedSentinel(ents, h1, h2, size);
    moves', floor' := TracedStep(ents, all, Contents(heap[..], last - 1), size, w0, moves, floor, h1, h2);
  }

  /** After both are out, what is left in the heap is as it was. */
  lemma TwoTaken(h: seq<nat>, ents: seq<Entry>, last: nat, size: nat, g: seq<nat>, a: nat, b: nat)
    requires 2 <= last < |h| && Rooted(ents, Contents(h, last), size) && size < |ents|
    requires IsHeap(g, ents, last - 2) && g[0] == 0 && a < |ents| && b < |ents| && 0 < |ents|
    requires Contents(g, last - 2) + multiset{b} + multiset{a} == Contents(h, last)
    ensures 0 < a < size && 0 < b < size && a != b
    ensures IsHeap(g, Joined(ents, a, b, size), last - 2)
  {
    var all, left := Contents(h, last), Contents(g, last - 2);
    assert a in all && b in all;
    assert all[a] <= 1 && all[b] <= 1;
    forall i | 0 <= i <= last - 2
      ensures Joined(ents, a, b, size)[g[i]].freq == ents[g[i]].freq
              && Joined(ents, a, b, size)[g[i]].depth == ents[g[i]].depth
    {
      if i > 0 {
        assert g[1..last - 1][i - 1] == g[i];
        assert g[i] in left;
        assert g[i] in all;
      }
    }
    HeapFrame(g, ents, Joined(ents, a, b, size), last - 2);
  }

  /** The weights of the symbols. */
  function Freqs(ents: seq<Entry>, n: nat): (r: seq<nat>)
    requires n < |ents|
    ensures |r| == n && forall i :: 0 <= i < n ==> r[i] == ents[i + 1].freq
  {
    seq(n, i requires 0 <= i < n => ents[i + 1].freq)
  }

  function InitialEntries(freq: seq<nat>): (ents: seq<Entry>)
    requires |freq| > 0
    ensures |ents| == 2 * |freq| && Freqs(ents, |freq|) == freq
  {
    seq(2 * |freq|, i requires 0 <= i < 2 * |freq| => Entry(0, if 0 < i <= |freq| then freq[i - 1] else 0, 0))
  }

  lemma FreqsReset(ents: seq<Entry>, i: nat, n: nat)
    requires i <= n < |ents|
    ensures Freqs(ents[i := Entry(0, if i == 0 then 0 else ents[i].freq, 0)], n) == Freqs(ents, n)
  {
  }

  lemma FreqsSet(ents: seq<Entry>, n: nat, s: nat)
    requires s < n < |ents|
    ensures Freqs(ents[s + 1 := ents[s + 1].(freq := 1)], n) == Freqs(ents, n)[s := 1]
  {
  }

  // ----- the initial heap

  /** The symbols up to `n` that have a weight are in the heap. */
  ghost predicate Entered(ents: seq<Entry>, roots: multiset<nat>, n: nat) {
    && n < |ents|
    && (forall e :: roots[e] == if 0 < e <= n && ents[e].freq > 0 then 1 else 0)
    && (forall i :: 0 <= i <= n ==> ents[i].depth == 0 && ents[i].parent == 0)
  }

  method InitialHeap(heap: array<nat>, ents0: seq<Entry>, asize: nat) returns (ents: seq<Entry>, last: nat)
    requires 0 < asize < heap.Length && asize < |ents0|
    modifies heap
    ensures |ents| == |ents0| && last <= asize && last < heap.Length && Heaped(heap[..], ents, last)
    ensures Entered(ents, Contents(heap[..], last), asize)
    ensures Freqs(ents, asize) == Freqs(ents0, asize)
  {
    hide Freqs, Heaped, Entered, Contents;
    FreqsReset(ents0, 0, asize);
    ents, last := ents0[0 := Entry(0, 0, 0)], 0;
    heap[0] := 0;
    EmptyHeap(heap[..], ents);
    for i := 0 to asize
      invariant last <= i && |ents| == |ents0| && Heaped(heap[..], ents, last)
      invariant Entered(ents, Contents(heap[..], last), i)
      invariant Freqs(ents, asize) == Freqs(ents0, asize)
    {
      FreqsReset(ents, i + 1, asize);
      ents, last := EnterSymbol(heap, ents, last, i);
    }
  }

  lemma EmptyHeap(h: seq<nat>, ents: seq<Entry>)
    requires 0 < |h| && 0 < |ents| && h[0] == 0 && ents[0] == Entry(0, 0, 0)
    ensures Heaped(h, ents, 0) && Entered(ents, Contents(h, 0), 0)
  {
  }

  method EnterSymbol(heap: array<nat>, ents0: seq<Entry>, last0: nat, i: nat) returns (ents: seq<Entry>, last: nat)
    requires last0 <= i && i + 1 < heap.Length && i + 1 < |ents0| && Heaped(heap[..], ents0, last0)
    requires Entered(ents0, Contents(heap[..], last0), i)
    modifies heap
    ensures last <= i + 1 && Heaped(heap[..], ents, last)
    ensures ents == ents0[i + 1 := Entry(0, ents0[i + 1].freq, 0)]
    ensures Entered(ents, Contents(heap[..], last), i + 1)
  {
    hide *;
    ents, last := ents0[i + 1 := Entry(0, ents0[i + 1].freq, 0)], last0;
    ghost var was := Contents(heap[..], last0);
    ResetFrame(heap[..], ents0, last, i);
    HeapedIsHeap(heap[..], ents, last);
    SymbolEntered(ents0, was, i);
    if ents[i + 1].freq != 0 {
      last := last + 1;
      HeapInsert(heap, ents, last, i + 1);
      HeapIsHeaped(heap[..], ents, last);
    }
  }

  lemma HeapedIsHeap(h: seq<nat>, ents: seq<Entry>, last: nat)
    requires Heaped(h, ents, last)
    ensures IsHeap(h, ents, last) && h[0] == 0 && 0 < |ents| && ents[0].freq == 0 && ents[0].depth == 0
  {
  }

  lemma HeapIsHeaped(h: seq<nat>, ents: seq<Entry>, last: nat)
    requires IsHeap(h, ents, last) && h[0] == 0 && 0 < |ents| && ents[0].freq == 0 && ents[0].depth == 0
    ensures Heaped(h, ents, last)
  {
  }

  lemma SymbolEntered(ents: seq<Entry>, roots: multiset<nat>, i: nat)
    requires Entered(ents, roots, i) && i + 1 < |ents|
    ensures var e := ents[i + 1 := Entry(0, ents[i + 1].freq, 0)];
            Entered(e, if e[i + 1].freq != 0 then roots + multiset{i + 1} else roots, i + 1)
  {
  }

  lemma ResetFrame(h: seq<nat>, ents: seq<Entry>, last: nat, i: nat)
    requires Heaped(h, ents, last) && Entered(ents, Contents(h, last), i) && i + 1 < |ents|
    ensures Heaped(h, ents[i + 1 := Entry(0, ents[i + 1].freq, 0)], last)
    ensures i + 1 !in Contents(h, last)
  {
    forall k | 0 <= k <= last ensures h[k] != i + 1 {
      if k > 0 {
        assert h[1..last + 1][k - 1] == h[k];
        assert h[k] in Contents(h, last);
      }
    }
    HeapFrame(h, ents, ents[i + 1 := Entry(0, ents[i + 1].freq, 0)], last);
  }

  lemma StartsTraced(ents: seq<Entry>, roots: multiset<nat>, asize: nat)
    requires Entered(ents, roots, asize)
    ensures Traced(ents, roots, asize + 1, Weights(ents, roots), [], 1)
  {
    assert Fib(2) == 1;
  }

  // ----- building the tree

  method GrowTree(heap: array<nat>, ents0: seq<Entry>, last0: nat, asize: nat, ghost w0: seq<nat>)
    returns (ents: seq<Entry>, size: nat, ghost moves: seq<Move>, ghost floor: nat)
    requires 1 <= last0 <= asize < heap.Length && |ents0| >= 2 * asize && asize + 1 <= |ents0|
    requires Growing(heap[..], ents0, last0, asize + 1, w0, [], 1)
    modifies heap
    ensures |ents| == |ents0| && asize + 1 <= size && Growing(heap[..], ents, 1, size, w0, moves, floor)
    ensures forall i :: 0 <= i <= asize ==> ents[i].freq == ents0[i].freq
  {
    hide Growing;
    var last := last0;
    ents, size, moves, floor := ents0, asize + 1, [], 1;
    while last > 1
      invariant 1 <= last <= last0 && size + last == asize + 1 + last0 && |ents| == |ents0|
      invariant Growing(heap[..], ents, last, size, w0, moves, floor)
      invariant forall i :: 0 <= i <= asize ==> ents[i].freq == ents0[i].freq
    {
      ents, moves, floor := MergeTwo(heap, ents, last, size, w0, moves, floor);
      last, size := last - 1, size + 1;
    }
  }

  /** Number of ancestors of an entry. */
  function Chain(ents: seq<Entry>, size: nat, i: nat): (b: nat)
    requires Linked(ents, size) && i < size
    decreases size - i
  {
    if ents[i].parent == 0 then 0 else 1 + Chain(ents, size, ents[i].parent)
  }

  method CountParents(ents: seq<Entry>, ghost size: nat, i: nat) returns (b: nat)
    requires Linked(ents, size) && 0 < i < size
    ensures b == Chain(ents, size, i)
  {
    b := 0;
    var p := i;
    while ents[p].parent != 0
      invariant 0 < p < size && b + Chain(ents, size, p) == Chain(ents, size, i)
      decreases size - p
    {
      p, b := ents[p].parent, b + 1;
    }
  }

  lemma {:induction false} ChainBelowDepth(ents: seq<Entry>, size: nat, i: nat, root: nat)
    requires Linked(ents, size) && i < size && root < size && ents[i].freq > 0 && i > 0
    requires forall k :: 0 < k < size && ents[k].freq > 0 && ents[k].parent == 0 ==> k == root
    ensures Chain(ents, size, i) + ents[i].depth <= ents[root].depth
    decreases size - i
  {
    if ents[i].parent != 0 {
      ChainBelowDepth(ents, size, ents[i].parent, root);
    }
  }

  // ----- code lengths

  function LengthOf(ents: seq<Entry>, size: nat, i: nat): nat
    requires Linked(ents, size) && i + 1 < size
  {
    if ents[i + 1].freq > 0 then Chain(ents, size, i + 1) else 0
  }

  /** The lengths that the tree gives to the symbols, up to that of symbol `n`. */
  function Lengths(ents: seq<Entry>, size: nat, n: nat): (r: seq<nat>)
    requires Linked(ents, size) && n < size
    ensures |r| == n && forall i :: 0 <= i < n ==> r[i] == LengthOf(ents, size, i)
  {
    seq(n, i requires 0 <= i < n => LengthOf(ents, size, i))
  }

  method CodeLengths(ents: seq<Entry>, ghost size: nat, freq: seq<nat>, maxlen: nat)
    returns (clen: seq<nat>, total: nat, overflow: bool)
    requires Linked(ents, size) && |freq| < size
    ensures clen == Lengths(ents, size, |freq|)
    ensures total == Cost(freq, clen)
    ensures overflow <==> !Within(clen, maxlen)
  {
    hide *;
    clen, total, overflow := [], 0, false;
    MeasuredNone(ents, size, freq, maxlen);
    for i := 0 to |freq|
      invariant Measured(ents, size, freq, maxlen, i, clen, total, overflow)
    {
      var b := LengthOfSymbol(ents, size, i);
      MeasuredMore(ents, size, freq, maxlen, i, clen, total, overflow, b);
      if b > maxlen {
        overflow := true;
      }
      total := total + b * freq[i];
      clen := clen + [b];
    }
    MeasuredAll(ents, size, freq, maxlen, clen, total, overflow);
  }

  /** The lengths of the first `n` symbols, their cost, and whether one is too long. */
  ghost predicate Measured(ents: seq<Entry>, size: nat, freq: seq<nat>, maxlen: nat, n: nat, clen: seq<nat>,
                           total: nat, overflow: bool)
    requires Linked(ents, size) && |freq| < size
  {
    n <= |freq| && clen == Lengths(ents, size, n) && total == Cost(freq[..n], clen) && overflow == !Within(clen, maxlen)
  }

  lemma MeasuredNone(ents: seq<Entry>, size: nat, freq: seq<nat>, maxlen: nat)
    requires Linked(ents, size) && |freq| < size
    ensures Measured(ents, size, freq, maxlen, 0, [], 0, false)
  {
    assert freq[..0] == [] && Cost([], []) == 0;
  }

  lemma MeasuredMore(ents: seq<Entry>, size: nat, freq: seq<nat>, maxlen: nat, n: nat, clen: seq<nat>, total: nat,
                     overflow: bool, b: nat)
    requires n < |freq| < size && Linked(ents, size) && b == LengthOf(ents, size, n)
    requires Measured(ents, size, freq, maxlen, n, clen, total, overflow)
    ensures Measured(ents, size, freq, maxlen, n + 1, clen + [b], total + b * freq[n], overflow || b > maxlen)
  {
    hide Linked, Cost, LengthOf, Within, Lengths;
    CostAppend(freq[..n], clen, freq[n], b);
    WithinAppend(clen, b, maxlen);
    LengthsAppend(ents, size, n);
    assert freq[..n + 1] == freq[..n] + [freq[n]];
  }

  lemma MeasuredAll(ents: seq<Entry>, size: nat, freq: seq<nat>, maxlen: nat, clen: seq<nat>, total: nat,
                    overflow: bool)
    requires Linked(ents, size) && |freq| < size && Measured(ents, size, freq, maxlen, |freq|, clen, total, overflow)
    ensures clen == Lengths(ents, size, |freq|) && total == Cost(freq, clen) && overflow == !Within(clen, maxlen)
  {
    hide Linked, Lengths, Cost, Within;
    assert freq[..|freq|] == freq;
  }

  lemma LengthsAppend(ents: seq<Entry>, size: nat, n: nat)
    requires Linked(ents, size) && n + 1 < size
    ensures Lengths(ents, size, n + 1) == Lengths(ents, size, n) + [LengthOf(ents, size, n)]
  {
  }

  method LengthOfSymbol(ents: seq<Entry>, ghost size: nat, i: nat) returns (b: nat)
    requires Linked(ents, size) && i + 1 < size
    ensures b == LengthOf(ents, size, i)
  {
    b := 0;
    if ents[i + 1].freq != 0 {
      b := CountParents(ents, size, i + 1);
    }
  }

  ghost predicate Within(clen: seq<nat>, maxlen: nat) {
    forall i :: 0 <= i < |clen| ==> clen[i] <= maxlen
  }

  lemma WithinAppend(clen: seq<nat>, b: nat, maxlen: nat)
    ensures Within(clen + [b], maxlen) <==> Within(clen, maxlen) && b <= maxlen
  {
    if Within(clen + [b], maxlen) {
      assert (clen + [b])[|clen|] == b;
      assert forall i :: 0 <= i < |clen| ==> (clen + [b])[i] == clen[i];
    }
  }

  lemma CostAppend(w: seq<nat>, len: seq<nat>, x: nat, n: nat)
    requires |len| == |w|
    ensures Cost(w + [x], len + [n]) == Cost(w, len) + n * x
  {
    var p: seq<nat> := Products(w + [x], len + [n]);
    assert p[..|w|] == Products(w, len);
  }

  // ----- what the finished tree says

  ghost predicate Finished(h: seq<nat>, ents: seq<Entry>, size: nat, ws: seq<nat>, w0: seq<nat>, moves: seq<Move>,
                           floor: nat) {
    && Growing(h, ents, 1, size, w0, moves, floor) && |ws| < size
    && Embeds(w0, ws) && forall i :: 0 <= i < |ws| ==> ents[i + 1].freq == ws[i]
  }

  function AllLengths(ents: seq<Entry>, size: nat): (r: seq<nat>)
    requires Linked(ents, size)
    ensures |r| == |ents|
  {
    seq(|ents|, i requires 0 <= i < |ents| => if i < size then Chain(ents, size, i) else 0)
  }

  /** All that is left is one tree; `w` is the forest with its root. */
  lemma OneRoot(h: seq<nat>, ents: seq<Entry>, size: nat, w0: seq<nat>, moves: seq<Move>, floor: nat)
    returns (root: nat, w: seq<nat>)
    requires Growing(h, ents, 1, size, w0, moves, floor)
    ensures 0 < root < size <= |ents| && SingleRoot(w, root) && ents[root].parent == 0
    ensures |w| == |ents| && Path(w0, moves, w) && Linked(ents, size)
    ensures forall m :: m in moves ==> Recorded(m, ents, size)
    ensures forall k :: 0 < k < size && ents[k].freq > 0 && ents[k].parent == 0 ==> k == root
    ensures w[root] >= Fib(ents[root].depth + 2)
  {
    root := h[1];
    w := Weights(ents, Contents(h, 1));
    SingleContents(h);
    hide Heaped, Contents, Path, Linked, Recorded, Fib;
    RootAlone(ents, Contents(h, 1), size, root, floor);
  }

  lemma SingleContents(h: seq<nat>)
    requires |h| > 1
    ensures Contents(h, 1) == multiset{h[1]}
  {
    assert h[1..2] == [h[1]];
  }

  lemma RootAlone(ents: seq<Entry>, roots: multiset<nat>, size: nat, root: nat, floor: nat)
    requires roots == multiset{root} && Rooted(ents, roots, size) && Complete(ents, roots, size)
    requires Heavy(Weights(ents, roots), Depths(ents), floor)
    ensures 0 < root < size <= |ents| && SingleRoot(Weights(ents, roots), root) && ents[root].parent == 0
    ensures forall k :: 0 < k < size && ents[k].freq > 0 && ents[k].parent == 0 ==> k == root
    ensures Weights(ents, roots)[root] >= Fib(ents[root].depth + 2)
  {
    hide Fib, Weights, Depths;
    assert root in roots;
    OnlyWeight(ents, roots, root);
  }

  lemma OnlyWeight(ents: seq<Entry>, roots: multiset<nat>, root: nat)
    requires roots == multiset{root} && root < |ents| && ents[root].freq > 0
    ensures SingleRoot(Weights(ents, roots), root)
    ensures Weights(ents, roots)[root] == ents[root].freq && Depths(ents)[root] == ents[root].depth
  {
  }

  lemma MovesHang(ents: seq<Entry>, size: nat, moves: seq<Move>)
    requires Linked(ents, size) && forall m :: m in moves ==> Recorded(m, ents, size)
    ensures forall m :: m in moves ==> HangsBelow(m, AllLengths(ents, size))
    ensures forall i :: 0 <= i < |ents| ==> AllLengths(ents, size)[i] <= size
  {
    forall m | m in moves ensures HangsBelow(m, AllLengths(ents, size)) { assert Recorded(m, ents, size); }
    forall i | 0 <= i < |ents| ensures AllLengths(ents, size)[i] <= size {
      if i < size { ChainBounded(ents, size, i); }
    }
  }

  lemma SameLengths(ents: seq<Entry>, size: nat, ws: seq<nat>)
    requires Linked(ents, size) && |ws| < size && forall i :: 0 <= i < |ws| ==> ents[i + 1].freq == ws[i]
    ensures forall i :: 0 <= i < |ws| && ws[i] > 0 ==> AllLengths(ents, size)[i + 1] == Lengths(ents, size, |ws|)[i]
  {
  }

  ghost predicate Cheapest(w: seq<nat>, len: seq<nat>)
    requires |len| == |w|
  {
    forall other, e: nat :: IsCode(w, other, e) ==> Cost(w, len) <= Cost(w, other)
  }

  lemma FinishedTree(h: seq<nat>, ents: seq<Entry>, size: nat, w0: seq<nat>, moves: seq<Move>, floor: nat, d: nat)
    requires Growing(h, ents, 1, size, w0, moves, floor) && size <= d
    ensures Linked(ents, size)
    ensures |w0| == |ents| && Kraft(w0, AllLengths(ents, size), d) == Pow2(d) && Cheapest(w0, AllLengths(ents, size))
  {
    hide Growing, Kraft, Cost, Linked, IsCode, Recorded, HangsBelow, AllLengths, Path, SingleRoot;
    var root, w := OneRoot(h, ents, size, w0, moves, floor);
    MovesHang(ents, size, moves);
    RootLength(ents, size, root);
    TreeLengths(w0, moves, w, root, AllLengths(ents, size), d);
  }

  /** The symbols' lengths fit exactly, and no prefix code has a smaller weighted length. */
  lemma FinishedLengths(h: seq<nat>, ents: seq<Entry>, size: nat, ws: seq<nat>, w0: seq<nat>, moves: seq<Move>,
                        floor: nat, maxlen: nat)
    requires Finished(h, ents, size, ws, w0, moves, floor) && Linked(ents, size)
    requires Within(Lengths(ents, size, |ws|), maxlen)
    ensures Kraft(ws, Lengths(ents, size, |ws|), maxlen) == Pow2(maxlen)
    ensures Cheapest(ws, Lengths(ents, size, |ws|))
  {
    hide Growing, Kraft, Cost, IsCode, AllLengths, Linked, Embeds, Within;
    var clen := Lengths(ents, size, |ws|);
    FinishedTree(h, ents, size, w0, moves, floor, maxlen + size);
    SameLengths(ents, size, ws);
    ExactlyOne(w0, ws, AllLengths(ents, size), clen, maxlen, maxlen + size);
    NoneCheaper(w0, ws, AllLengths(ents, size), clen);
  }

  lemma RootLength(ents: seq<Entry>, size: nat, root: nat)
    requires Linked(ents, size) && root < size && ents[root].parent == 0
    ensures AllLengths(ents, size)[root] == 0
  {
  }

  lemma {:induction false} ChainBounded(ents: seq<Entry>, size: nat, i: nat)
    requires Linked(ents, size) && i < size
    ensures Chain(ents, size, i) < size - i
    decreases size - i
  {
    if ents[i].parent != 0 { ChainBounded(ents, size, ents[i].parent); }
  }

  lemma ExactlyOne(w0: seq<nat>, ws: seq<nat>, len: seq<nat>, clen: seq<nat>, maxlen: nat, d: nat)
    requires Embeds(w0, ws) && |len| == |w0| && |clen| == |ws| && Kraft(w0, len, d) == Pow2(d) && maxlen <= d
    requires Within(clen, maxlen) && forall i :: 0 <= i < |ws| && ws[i] > 0 ==> len[i + 1] == clen[i]
    ensures Kraft(ws, clen, maxlen) == Pow2(maxlen)
  {
    Embedded(w0, ws, len, clen, d);
    KraftScaled(ws, clen, maxlen, d);
    PowAdds(d - maxlen, maxlen);
    Cancel(Pow2(d - maxlen), Kraft(ws, clen, maxlen), Pow2(maxlen));
  }

  lemma Cancel(m: nat, x: nat, y: nat)
    requires m > 0 && m * x == m * y
    ensures x == y
  {
  }

  lemma NoneCheaper(w0: seq<nat>, ws: seq<nat>, len: seq<nat>, clen: seq<nat>)
    requires Embeds(w0, ws) && |len| == |w0| && |clen| == |ws| && Cheapest(w0, len)
    requires forall i :: 0 <= i < |ws| && ws[i] > 0 ==> len[i + 1] == clen[i]
    ensures Cheapest(ws, clen)
  {
    forall other, e: nat | IsCode(ws, other, e) ensures Cost(ws, clen) <= Cost(ws, other) {
      var o := seq(|w0|, i requires 0 <= i < |w0| => if 0 < i <= |ws| then other[i - 1] else 0);
      Embedded(w0, ws, len, clen, e);
      Embedded(w0, ws, o, other, e);
      assert IsCode(w0, o, e);
    }
  }

  /** A length above `maxlen` needs more weight than all weights of at most 2 have together. */
  lemma OverflowIsHeavy(h: seq<nat>, ents: seq<Entry>, size: nat, ws: seq<nat>, w0: seq<nat>, moves: seq<Move>,
                        floor: nat, maxlen: nat)
    requires Finished(h, ents, size, ws, w0, moves, floor) && Linked(ents, size)
    requires !Within(Lengths(ents, size, |ws|), maxlen)
    ensures Sum(ws) >= Fib(maxlen + 3)
  {
    hide Growing, Fib, Embeds, Path, Linked, SingleRoot, Recorded, Within, Chain, Sum;
    var i := DeepSymbol(ents, size, |ws|, maxlen);
    var root, w := OneRoot(h, ents, size, w0, moves, floor);
    ChainBelowDepth(ents, size, i, root);
    FibGrows(maxlen + 3, ents[root].depth + 2);
    assert root < |w| by { assert SingleRoot(w, root); }
    SumAtLeast(w, root);
    PathSum(w0, moves, w);
    EmbeddedSum(w0, ws);
  }

  lemma DeepSymbol(ents: seq<Entry>, size: nat, n: nat, maxlen: nat) returns (i: nat)
    requires Linked(ents, size) && n < size && !Within(Lengths(ents, size, n), maxlen)
    ensures 0 < i < size && ents[i].freq > 0 && Chain(ents, size, i) > maxlen
  {
    var k :| 0 <= k < n && Lengths(ents, size, n)[k] > maxlen;
    i := k + 1;
  }

  // ----- the loop around the tree building

  ghost predicate TwoPositive(ws: seq<nat>) {
    exists i, j :: 0 <= i < j < |ws| && ws[i] > 0 && ws[j] > 0
  }

  ghost predicate OnlyPositive(ws: seq<nat>, t: nat) {
    t < |ws| && ws[t] > 0 && forall i :: 0 <= i < |ws| && i != t ==> ws[i] == 0
  }

  /** A second symbol has been faked beside the only one. */
  ghost predicate Paired(freq: seq<nat>, ws: seq<nat>) {
    exists s: nat, t: nat :: PairedAt(freq, ws, s, t)
  }

  ghost predicate PairedAt(freq: seq<nat>, ws: seq<nat>, s: nat, t: nat) {
    s < |freq| && s != t && OnlyPositive(freq, t) && ws == freq[s := 1]
  }

  function ZeroCount(ws: seq<nat>): nat {
    if ws == [] then 0 else ZeroCount(ws[..|ws| - 1]) + if ws[|ws| - 1] == 0 then 1 else 0
  }

  lemma {:induction false} ZerosSet(ws: seq<nat>, i: nat, x: nat)
    requires i < |ws| && ws[i] == 0 && x > 0
    ensures ZeroCount(ws[i := x]) + 1 == ZeroCount(ws)
    decreases |ws|
  {
    if i == |ws| - 1 {
      assert ws[i := x][..i] == ws[..i];
    } else {
      ZerosSet(ws[..|ws| - 1], i, x);
      assert ws[i := x][..|ws| - 1] == ws[..|ws| - 1][i := x];
    }
  }

  function Halved(ws: seq<nat>): (r: seq<nat>)
    ensures |r| == |ws|
  {
    seq(|ws|, i requires 0 <= i < |ws| => ws[i] / 2 + 1)
  }

  /** Rescaling makes every weight positive; once they are, it shrinks what is too heavy. */
  lemma {:induction false} HalvedShrinks(ws: seq<nat>)
    ensures ZeroCount(Halved(ws)) == 0
    ensures ZeroCount(ws) == 0 ==> Sum(Halved(ws)) <= Sum(ws)
    ensures ZeroCount(ws) == 0 && Sum(ws) > 2 * |ws| ==> Sum(Halved(ws)) < Sum(ws)
    decreases |ws|
  {
    if ws != [] {
      HalvedShrinks(ws[..|ws| - 1]);
      assert Halved(ws)[..|ws| - 1] == Halved(ws[..|ws| - 1]);
    }
  }

  lemma CountRoots(h: seq<nat>, ents: seq<Entry>, last: nat, n: nat)
    requires last < |h| && Entered(ents, Contents(h, last), n)
    ensures last == 0 ==> forall i :: 0 <= i < n ==> Freqs(ents, n)[i] == 0
    ensures last == 1 ==> exists t: nat :: OnlyPositive(Freqs(ents, n), t)
    ensures last >= 2 ==> TwoPositive(Freqs(ents, n))
  {
    var roots, ws := Contents(h, last), Freqs(ents, n);
    if last == 0 {
      assert h[1..1] == [];
      forall i | 0 <= i < n ensures ws[i] == 0 { assert roots[i + 1] == 0; }
    } else if last == 1 {
      assert h[1..2] == [h[1]];
      assert roots[h[1]] == 1;
      forall i | 0 <= i < n && i + 1 != h[1] ensures ws[i] == 0 { assert roots[i + 1] == 0; }
      assert OnlyPositive(ws, h[1] - 1);
    } else {
      assert h[1..last + 1] == [h[1], h[2]] + h[3..last + 1];
      assert roots[h[1]] == 1 && roots[h[2]] == 1;
      assert ws[h[1] - 1] > 0 && ws[h[2] - 1] > 0;
    }
  }

  /** When two symbols share the codes, no code is empty. */
  lemma NoEmptyCode(ws: seq<nat>, clen: seq<nat>, d: nat)
    requires TwoPositive(ws) && |clen| == |ws| && Within(clen, d) && Kraft(ws, clen, d) == Pow2(d)
    ensures forall i :: 0 <= i < |ws| && ws[i] > 0 ==> clen[i] > 0
  {
    var a, b :| 0 <= a < b < |ws| && ws[a] > 0 && ws[b] > 0;
    forall i | 0 <= i < |ws| && ws[i] > 0 ensures clen[i] > 0 {
      var j := if i == a then b else a;
      SumAtLeastTwo(Terms(ws, clen, d), i, j);
    }
  }

  ghost predicate UsesBits(freq: seq<nat>, len: seq<nat>) {
    |len| == |freq| && forall i :: 0 <= i < |freq| && freq[i] > 0 ==> len[i] > 0
  }

  /** With a faked partner the only symbol still gets one bit, which it cannot do without. */
  lemma PairedCost(freq: seq<nat>, ws: seq<nat>, clen: seq<nat>, other: seq<nat>)
    requires Paired(freq, ws) && |clen| == |ws| && Cheapest(ws, clen)
    requires forall i :: 0 <= i < |ws| && ws[i] > 0 ==> clen[i] > 0
    requires UsesBits(freq, other)
    ensures Cost(freq, clen) <= Cost(freq, other)
  {
    var s: nat, t: nat :| PairedAt(freq, ws, s, t);
    var ones := seq(|ws|, i => 1);
    OnlyTerm(freq, ones, t);
    OnlyTerm(freq, clen, t);
    OnlyTerm(freq, other, t);
    CostReweigh(freq, ones, s, 1);
    CostReweigh(freq, clen, s, 1);
    TwoTerms(ws, ones, s, t);
    assert IsCode(ws, ones, 1);
    MulGrows(freq[t], 1, other[t]);
  }

  lemma OnlyTerm(w: seq<nat>, len: seq<nat>, t: nat)
    requires OnlyPositive(w, t) && |len| == |w|
    ensures Cost(w, len) == w[t] * len[t]
  {
    var p: seq<nat> := Products(w, len);
    SumUpdate(p, t, 0);
    SumZero(p[t := 0]);
  }

  lemma TwoTerms(w: seq<nat>, len: seq<nat>, s: nat, t: nat)
    requires s < |w| && t < |w| && s != t && |len| == |w| && w[s] > 0 && w[t] > 0 && len[s] == len[t] == 1
    requires forall i :: 0 <= i < |w| && i != s && i != t ==> w[i] == 0
    ensures Kraft(w, len, 1) == Pow2(1)
  {
    var k: seq<nat> := Terms(w, len, 1);
    SumUpdate(k, s, 0);
    SumUpdate(k[s := 0], t, 0);
    SumZero(k[s := 0][t := 0]);
    assert Pow2(0) == 1 && Pow2(1) == 2;
  }

  /** The weights in use: those given, or with a faked second symbol, or positive ones after
      rescaling.  A symbol that occurs never loses its weight. */
  ghost predicate Justified(freq: seq<nat>, ws: seq<nat>, rescaled: bool) {
    && |ws| == |freq| && (forall i :: 0 <= i < |freq| && freq[i] > 0 ==> ws[i] > 0)
    && (if rescaled then ZeroCount(ws) == 0 else ws == freq || Paired(freq, ws))
  }

  /** What the code lengths are good for. */
  ghost predicate GoodLengths(ws: seq<nat>, clen: seq<nat>, maxlen: nat) {
    && |clen| == |ws| && Within(clen, maxlen) && Kraft(ws, clen, maxlen) == Pow2(maxlen)
    && forall i :: 0 <= i < |ws| ==> (clen[i] > 0 <==> ws[i] > 0)
  }

  /** No prefix code that spends at least a bit on every symbol that occurs is shorter in total. */
  ghost predicate Optimal(freq: seq<nat>, total: nat) {
    forall other, e: nat :: IsCode(freq, other, e) && UsesBits(freq, other) ==> total <= Cost(freq, other)
  }

  lemma StartsEmbedded(ents: seq<Entry>, roots: multiset<nat>, n: nat)
    requires Entered(ents, roots, n) && n + 1 < |ents|
    ensures Embeds(Weights(ents, roots), Freqs(ents, n))
  {
    forall i | 0 <= i < |ents| ensures Weights(ents, roots)[i] == if 0 < i <= n then ents[i].freq else 0 {
      assert roots[i] == if 0 < i <= n && ents[i].freq > 0 then 1 else 0;
    }
  }

  lemma LengthsAreGood(ents: seq<Entry>, size: nat, n: nat, maxlen: nat)
    requires Linked(ents, size) && n < size && TwoPositive(Freqs(ents, n)) && Within(Lengths(ents, size, n), maxlen)
    requires Kraft(Freqs(ents, n), Lengths(ents, size, n), maxlen) == Pow2(maxlen)
    ensures GoodLengths(Freqs(ents, n), Lengths(ents, size, n), maxlen)
  {
    NoEmptyCode(Freqs(ents, n), Lengths(ents, size, n), maxlen);
  }

  /** The tree, and the code lengths that it gives. */
  method Measure(heap: array<nat>, ents0: seq<Entry>, last: nat, freq: seq<nat>, maxlen: nat)
    returns (ents: seq<Entry>, clen: seq<nat>, total: nat, overflow: bool)
    requires 2 <= last <= |freq| && heap.Length == |freq| + 1 && |ents0| == 2 * |freq|
    requires Heaped(heap[..], ents0, last) && Entered(ents0, Contents(heap[..], last), |freq|)
    requires TwoPositive(Freqs(ents0, |freq|))
    modifies heap
    ensures |ents| == |ents0| && Freqs(ents, |freq|) == Freqs(ents0, |freq|)
    ensures |clen| == |freq| && total == Cost(freq, clen)
    ensures overflow ==> Sum(Freqs(ents0, |freq|)) >= Fib(maxlen + 3)
    ensures !overflow ==> GoodLengths(Freqs(ents0, |freq|), clen, maxlen) && Cheapest(Freqs(ents0, |freq|), clen)
  {
    hide Contents;
    hide Heaped, Entered, Weights, Embeds, Linked, TwoPositive, Cost, Fib, Sum, Cheapest, Traced, Kraft;
    var n := |freq|;
    ghost var ws := Freqs(ents0, n);
    ghost var w0 := Weights(ents0, Contents(heap[..], last));
    StartsTraced(ents0, Contents(heap[..], last), n);
    StartsEmbedded(ents0, Contents(heap[..], last), n);
    var size: nat;
    ghost var moves, floor;
    ents, size, moves, floor := GrowTree(heap, ents0, last, n, w0);
    assert Freqs(ents, n) == ws;
    assert Linked(ents, size) by { var _, _ := OneRoot(heap[..], ents, size, w0, moves, floor); }
    hide Growing;
    clen, total, overflow := CodeLengths(ents, size, freq, maxlen);
    assert Finished(heap[..], ents, size, ws, w0, moves, floor);
    hide Finished;
    if overflow {
      OverflowIsHeavy(heap[..], ents, size, ws, w0, moves, floor, maxlen);
    } else {
      FinishedLengths(heap[..], ents, size, ws, w0, moves, floor, maxlen);
      LengthsAreGood(ents, size, n, maxlen);
    }
  }

  lemma {:induction false} NoZeros(ws: seq<nat>)
    ensures ZeroCount(ws) == 0 <==> forall i :: 0 <= i < |ws| ==> ws[i] > 0
    decreases |ws|
  {
    if ws != [] { NoZeros(ws[..|ws| - 1]); }
  }

  /** Only weights as given can have a single positive one; a second is faked. */
  lemma FakeSecond(freq: seq<nat>, ws: seq<nat>, rescaled: bool, s: nat)
    requires |freq| >= 2 && Justified(freq, ws, rescaled) && !TwoPositive(ws) && (exists t: nat :: OnlyPositive(ws, t))
    requires s == if freq[0] != 0 then |freq| - 1 else 0
    ensures !rescaled && Justified(freq, ws[s := 1], false) && ZeroCount(ws[s := 1]) < ZeroCount(ws)
  {
    NoZeros(ws);
    var t: nat :| OnlyPositive(ws, t);
    if rescaled {
      assert false;
    }
    if Paired(freq, ws) {
      PairedIsTwo(freq, ws);
      assert false;
    }
    assert PairedAt(freq, ws[s := 1], s, t);
    ZerosSet(ws, s, 1);
  }

  lemma PairedIsTwo(freq: seq<nat>, ws: seq<nat>)
    requires Paired(freq, ws)
    ensures TwoPositive(ws)
  {
    var s: nat, t: nat :| PairedAt(freq, ws, s, t);
    assert ws[s] > 0 && ws[t] > 0;
  }

  /** What the number of roots says about the weights. */
  lemma PassKind(h: seq<nat>, ents: seq<Entry>, last: nat, freq: seq<nat>, ws: seq<nat>, rescaled: bool)
    requires last < |h| && |freq| < |ents| && Entered(ents, Contents(h, last), |freq|) && ws == Freqs(ents, |freq|)
    requires Justified(freq, ws, rescaled) && exists i :: 0 <= i < |freq| && freq[i] > 0
    ensures last > 0
    ensures last == 1 ==> !TwoPositive(ws) && exists t: nat :: OnlyPositive(ws, t)
    ensures last >= 2 ==> TwoPositive(ws)
  {
    CountRoots(h, ents, last, |freq|);
    if last == 1 {
      var t: nat :| OnlyPositive(ws, t);
      OneIsNotTwo(ws, t);
    }
  }

  lemma OneIsNotTwo(ws: seq<nat>, t: nat)
    requires OnlyPositive(ws, t)
    ensures !TwoPositive(ws)
  {
  }

  /** Rescaling after an overflow. */
  lemma Rescaled(freq: seq<nat>, ws: seq<nat>, rescaled: bool, maxlen: nat)
    requires Justified(freq, ws, rescaled) && Sum(ws) >= Fib(maxlen + 3) > 2 * |freq|
    ensures Justified(freq, Halved(ws), true)
    ensures ZeroCount(Halved(ws)) < ZeroCount(ws)
            || (ZeroCount(Halved(ws)) == ZeroCount(ws) && Sum(Halved(ws)) < Sum(ws))
  {
    HalvedShrinks(ws);
  }

  /** Without rescaling the total is the least possible. */
  lemma FirstPassOptimal(freq: seq<nat>, ws: seq<nat>, clen: seq<nat>, maxlen: nat)
    requires Justified(freq, ws, false) && GoodLengths(ws, clen, maxlen) && Cheapest(ws, clen)
    ensures Optimal(freq, Cost(freq, clen))
  {
    forall other, e: nat | IsCode(freq, other, e) && UsesBits(freq, other)
      ensures Cost(freq, clen) <= Cost(freq, other)
    {
      if ws != freq { PairedCost(freq, ws, clen, other); }
    }
  }

  ghost predicate Lighter(ws: seq<nat>, than: seq<nat>) {
    ZeroCount(ws) < ZeroCount(than) || (ZeroCount(ws) == ZeroCount(than) && Sum(ws) < Sum(than))
  }

  /** One time through, from `again` on; `Refit` makes it go through again. */
  method Round(heap: array<nat>, ents0: seq<Entry>, freq: seq<nat>, maxlen: nat, ghost ws0: seq<nat>,
               ghost rescaled0: bool)
    returns (done: bool, ents: seq<Entry>, clen: seq<nat>, total: nat, ghost ws: seq<nat>, ghost rescaled: bool)
    requires |freq| >= 2 && (exists i :: 0 <= i < |freq| && freq[i] > 0) && Fib(maxlen + 3) > 2 * |freq|
    requires |ents0| == 2 * |freq| && heap.Length == |freq| + 1
    requires ws0 == Freqs(ents0, |freq|) && Justified(freq, ws0, rescaled0)
    modifies heap
    ensures |ents| == |ents0| && Justified(freq, ws, rescaled)
    ensures !done ==> ws == Freqs(ents, |freq|) && Lighter(ws, ws0)
    ensures done ==> |clen| == |freq| && total == Cost(freq, clen) && GoodLengths(ws, clen, maxlen)
    ensures done && !rescaled ==> Optimal(freq, total)
  {
    hide ZeroCount, Sum, Fib, TwoPositive, OnlyPositive, Heaped, Entered, GoodLengths, Cheapest, Cost, Contents,
         Optimal,
      Justified, Halved, Freqs;
    var last;
    ents, last := InitialHeap(heap, ents0, |freq|);
    clen, total, ws, rescaled := [], 0, ws0, rescaled0;
    PassKind(heap[..], ents, last, freq, ws, rescaled);
    if last == 1 {
      var s := if freq[0] != 0 then |freq| - 1 else 0;
      FakeSecond(freq, ws, rescaled, s);
      FreqsSet(ents, |freq|, s);
      ents := ents[s + 1 := ents[s + 1].(freq := 1)];
      ws, done := ws[s := 1], false;
      return;
    }
    var overflow;
    ents, clen, total, overflow := Measure(heap, ents, last, freq, maxlen);
    done := !overflow;
    if overflow {
      ents := Refit(ents, freq, ws, rescaled, maxlen);
      ws, rescaled := Halved(ws), true;
    } else if !rescaled {
      FirstPassOptimal(freq, ws, clen, maxlen);
    }
  }

  method Refit(ents0: seq<Entry>, freq: seq<nat>, ghost ws: seq<nat>, ghost rescaled: bool, ghost maxlen: nat)
    returns (ents: seq<Entry>)
    requires |freq| < |ents0| && Justified(freq, ws, rescaled) && Sum(ws) >= Fib(maxlen + 3) > 2 * |freq|
    requires ws == Freqs(ents0, |freq|)
    ensures |ents| == |ents0| && Freqs(ents, |freq|) == Halved(ws)
    ensures Justified(freq, Halved(ws), true) && Lighter(Halved(ws), ws)
  {
    Rescaled(freq, ws, rescaled, maxlen);
    ents := Rescale(ents0, |freq|);
  }

  /** djw_build_prefix.  Whatever the frequencies, it ends; the lengths are at most `maxlen`, every
      symbol that occurs has a code, and the codes use up Kraft's sum exactly.  If no length
      overflowed, no prefix code encodes the symbols in fewer bits. */
  method BuildPrefix(freq: seq<nat>, maxlen: nat)
    returns (clen: seq<nat>, total: nat, ghost ws: seq<nat>, ghost rescaled: bool)
    requires |freq| >= 2 && (exists i :: 0 <= i < |freq| && freq[i] > 0)
    requires Fib(maxlen + 3) > 2 * |freq|
    ensures |clen| == |freq| && total == Cost(freq, clen)
    ensures Justified(freq, ws, rescaled) && GoodLengths(ws, clen, maxlen)
    ensures !rescaled ==> Optimal(freq, total)
  {
    var ents := InitialEntries(freq);
    var heap := new nat[|freq| + 1];
    clen, total, ws, rescaled := [], 0, freq, false;
    var done := false;
    assert Justified(freq, ws, rescaled);
    hide Fib, GoodLengths, Cost, Optimal, Justified, Freqs;
    while !done
      invariant fresh(heap) && heap.Length == |freq| + 1 && |ents| == 2 * |freq| && Justified(freq, ws, rescaled)
      invariant !done ==> ws == Freqs(ents, |freq|)
      invariant done ==> |clen| == |freq| && total == Cost(freq, clen) && GoodLengths(ws, clen, maxlen)
      invariant done && !rescaled ==> Optimal(freq, total)
      decreases !done, ZeroCount(ws), Sum(ws)
    {
      done, ents, clen, total, ws, rescaled := Round(heap, ents, freq, maxlen, ws, rescaled);
    }
  }

  method Rescale(ents0: seq<Entry>, n: nat) returns (ents: seq<Entry>)
    requires n < |ents0|
    ensures |ents| == |ents0| && Freqs(ents, n) == Halved(Freqs(ents0, n))
  {
    ents := ents0;
    for i := 1 to n + 1
      invariant |ents| == |ents0|
      invariant forall k :: 0 < k < i ==> ents[k].freq == ents0[k].freq / 2 + 1
      invariant forall k :: i <= k <= n ==> ents[k] == ents0[k]
    {
      ents := ents[i := ents[i].(freq := ents[i].freq / 2 + 1)];
    }
  }
}
