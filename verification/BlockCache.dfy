/**
 The cache of source blocks over a seekable file of known size (main_set_source, main_getblk_func
 and main_getblk_lru without the FIFO discipline): every slot holds a block of the file, and what is
 in the cache is what was requested most recently.
 */
module BlockCache {
  import opened Arithmetic
  import opened Bytes
  import opened BlockSource
  import opened CyclicList

  const MAX_LRU_SIZE: nat := 32

  // ----- the discipline

  function WithoutBlock(s: seq<nat>, b: nat): (r: seq<nat>)
    ensures |r| <= |s| && b !in r
    ensures b !in s ==> r == s
  {
    if s == [] then [] else if s[|s| - 1] == b then WithoutBlock(s[..|s| - 1], b)
      else WithoutBlock(s[..|s| - 1], b) + [s[|s| - 1]]
  }

  /** What a request does to the cached blocks, the least recently requested first. */
  function Touched(cached: seq<nat>, b: nat, k: nat): seq<nat> {
    if b in cached then WithoutBlock(cached, b) + [b]
    else if |cached| < k || cached == [] then cached + [b]
    else cached[1..] + [b]
  }

  /** What a cache of `k` blocks holds after a history of requests. */
  function Cached(history: seq<nat>, k: nat): seq<nat> {
    if history == [] then [] else Touched(Cached(history[..|history| - 1], k), history[|history| - 1], k)
  }

  function Elements(s: seq<nat>): set<nat> {
    set x | x in s
  }

  /** The blocks requested since block `b` was, itself included, are no more than `k`. */
  ghost predicate RequestedWithin(history: seq<nat>, b: nat, k: nat) {
    exists i: nat :: i < |history| && history[i] == b && |Elements(history[i..])| <= k
  }

  // ----- what it means

  /** Every end of the list is what some end of the history requested. */
  ghost predicate Recent(s: seq<nat>, history: seq<nat>) {
    forall p: nat :: p <= |s| ==> SomeEnd(Elements(s[p..]), history)
  }

  ghost predicate SomeEnd(e: set<nat>, history: seq<nat>) {
    exists i: nat :: i <= |history| && Elements(history[i..]) == e
  }

  lemma ElementsAppend(s: seq<nat>, b: nat)
    ensures Elements(s + [b]) == Elements(s) + {b}
  {
    forall x ensures x in Elements(s + [b]) <==> x in Elements(s) + {b} {
      assert x in s + [b] <==> x in s || x == b;
    }
  }

  lemma EndGrows(e: set<nat>, history: seq<nat>, b: nat)
    requires SomeEnd(e, history)
    ensures SomeEnd(e + {b}, history + [b])
  {
    var i: nat :| i <= |history| && Elements(history[i..]) == e;
    assert (history + [b])[i..] == history[i..] + [b];
    ElementsAppend(history[i..], b);
  }

  /** An end of what is left without `b` is an end of the whole, but for `b`. */
  lemma {:induction false} WithoutEnd(s: seq<nat>, b: nat, p: nat) returns (q: nat)
    requires p <= |WithoutBlock(s, b)|
    ensures q <= |s| && Elements(WithoutBlock(s, b)[p..]) + {b} == Elements(s[q..]) + {b}
    decreases |s|
  {
    if p == |WithoutBlock(s, b)| {
      q := |s|;
      assert WithoutBlock(s, b)[p..] == [] && s[q..] == [];
    } else {
      var n := |s| - 1;
      var w := WithoutBlock(s[..n], b);
      q := WithoutEnd(s[..n], b, p);
      assert s[q..] == s[..n][q..] + [s[n]];
      ElementsAppend(s[..n][q..], s[n]);
      if s[n] != b {
        assert WithoutBlock(s, b)[p..] == w[p..] + [s[n]];
        ElementsAppend(w[p..], s[n]);
      }
    }
  }

  lemma TouchedRecent(s: seq<nat>, history: seq<nat>, b: nat, k: nat)
    requires Recent(s, history)
    ensures Recent(Touched(s, b, k), history + [b])
  {
    var t := Touched(s, b, k);
    forall p: nat | p <= |t| ensures SomeEnd(Elements(t[p..]), history + [b]) {
      if p == |t| {
        assert t[p..] == [] && (history + [b])[|history| + 1..] == [];
      } else {
        var u := t[..|t| - 1];
        assert t[p..] == u[p..] + [b];
        ElementsAppend(u[p..], b);
        var q := TouchedEnd(s, b, k, p);
        EndGrows(Elements(s[q..]), history, b);
      }
    }
  }

  lemma TouchedEnd(s: seq<nat>, b: nat, k: nat, p: nat) returns (q: nat)
    requires p < |Touched(s, b, k)|
    ensures q <= |s| && Elements(Touched(s, b, k)[..|Touched(s, b, k)| - 1][p..]) + {b} == Elements(s[q..]) + {b}
  {
    var u := Touched(s, b, k)[..|Touched(s, b, k)| - 1];
    if b in s {
      assert u == WithoutBlock(s, b);
      q := WithoutEnd(s, b, p);
    } else if |s| < k || s == [] {
      assert u == s;
      q := p;
    } else {
      assert u == s[1..];
      assert u[p..] == s[p + 1..];
      q := p + 1;
    }
  }

  lemma {:induction false} CachedRecent(history: seq<nat>, k: nat)
    ensures Recent(Cached(history, k), history)
    decreases |history|
  {
    if history == [] {
      assert forall p: nat :: p <= 0 ==> Cached(history, k)[p..] == history[0..];
      assert SomeEnd(Elements([]), history) by { assert history[0..] == []; }
    } else {
      var n := |history| - 1;
      CachedRecent(history[..n], k);
      TouchedRecent(Cached(history[..n], k), history[..n], history[n], k);
      assert history == history[..n] + [history[n]];
    }
  }

  lemma {:induction false} WithoutDistinct(s: seq<nat>, b: nat)
    requires Distinct(s)
    ensures Distinct(WithoutBlock(s, b)) && Elements(WithoutBlock(s, b)) == Elements(s) - {b}
    ensures b in s ==> |WithoutBlock(s, b)| + 1 == |s|
    decreases |s|
  {
    if s != [] {
      var n := |s| - 1;
      var w := WithoutBlock(s[..n], b);
      WithoutDistinct(s[..n], b);
      assert s == s[..n] + [s[n]];
      ElementsAppend(s[..n], s[n]);
      ElementsAppend(w, s[n]);
      if s[n] != b {
        assert s[n] !in Elements(w);
        DistinctAppend(w, s[n]);
      } else {
        assert b !in s[..n];
      }
    }
  }

  lemma DistinctAppend(s: seq<nat>, b: nat)
    requires Distinct(s) && b !in s
    ensures Distinct(s + [b])
  {
  }

  /** A cache that is not full has seen only what it holds. */
  lemma {:induction false} CachedFull(history: seq<nat>, k: nat)
    requires k > 0
    ensures Distinct(Cached(history, k)) && |Cached(history, k)| <= k
    ensures |Cached(history, k)| < k ==> Elements(Cached(history, k)) == Elements(history)
    decreases |history|
  {
    if history != [] {
      var n := |history| - 1;
      var c, b := Cached(history[..n], k), history[n];
      CachedFull(history[..n], k);
      assert history == history[..n] + [b];
      ElementsAppend(history[..n], b);
      WithoutDistinct(c, b);
      if b in c {
        ElementsAppend(WithoutBlock(c, b), b);
        DistinctAppend(WithoutBlock(c, b), b);
      } else if |c| < k {
        ElementsAppend(c, b);
        DistinctAppend(c, b);
      } else {
        DistinctAppend(c[1..], b);
      }
    }
  }

  lemma {:induction false} DistinctSize(s: seq<nat>)
    requires Distinct(s)
    ensures |Elements(s)| == |s|
    decreases |s|
  {
    if s != [] {
      var n := |s| - 1;
      DistinctSize(s[..n]);
      assert s == s[..n] + [s[n]];
      ElementsAppend(s[..n], s[n]);
      assert s[n] !in s[..n];
    }
  }

  lemma SmallerEnd(history: seq<nat>, i: nat, j: nat)
    requires i <= j <= |history|
    ensures Elements(history[j..]) <= Elements(history[i..])
  {
    assert history[i..][j - i..] == history[j..];
  }

  lemma SubsetSize(a: set<nat>, b: set<nat>)
    requires a <= b
    ensures |a| <= |b| && (|a| == |b| ==> a == b)
  {
    assert b == a + (b - a);
  }

  /** The cache of `k` blocks holds exactly the blocks that are among the `k` most recently requested
      distinct ones. */
  lemma CachedMeans(history: seq<nat>, b: nat, k: nat)
    requires k > 0
    ensures b in Cached(history, k) <==> RequestedWithin(history, b, k)
  {
    var c := Cached(history, k);
    CachedRecent(history, k);
    CachedFull(history, k);
    DistinctSize(c);
    assert c[0..] == c;
    assert SomeEnd(Elements(c[0..]), history);
    var i: nat :| i <= |history| && Elements(history[i..]) == Elements(c);
    if b in c {
      assert b in Elements(history[i..]);
      var d :| 0 <= d < |history[i..]| && history[i..][d] == b;
      SmallerEnd(history, i, i + d);
      SubsetSize(Elements(history[i + d..]), Elements(history[i..]));
      assert history[i + d] == b;
    }
    if RequestedWithin(history, b, k) {
      var j: nat :| j < |history| && history[j] == b && |Elements(history[j..])| <= k;
      assert history[j..][0] == b;
      assert b in Elements(history[j..]);
      if j >= i {
        SmallerEnd(history, i, j);
      } else {
        SmallerEnd(history, j, i);
        SubsetSize(Elements(history[i..]), Elements(history[j..]));
        if |c| < k {
          assert b in Elements(history);
        }
      }
      assert b in Elements(c);
    }
  }

  // ----- the cache

  /** main_blklru: which block a slot holds, if any, and its bytes. */
  datatype Slot = Slot(blkno: Option<nat>, data: seq<byte>)

  lemma {:induction false} WithoutParts(a: seq<nat>, b: nat, c: seq<nat>)
    requires b !in a && b !in c
    ensures WithoutBlock(a + [b] + c, b) == a + c
    decreases |c|
  {
    var s := a + [b] + c;
    if c == [] {
      assert s[..|s| - 1] == a && a + [] == a;
    } else {
      WithoutParts(a, b, c[..|c| - 1]);
      assert s[..|s| - 1] == a + [b] + c[..|c| - 1];
      assert a + c[..|c| - 1] + [c[|c| - 1]] == a + c;
    }
  }

  lemma TouchedHit(s: seq<nat>, p: nat, k: nat)
    requires Distinct(s) && p < |s|
    ensures Touched(s, s[p], k) == s[..p] + s[p + 1..] + [s[p]]
  {
    assert s == s[..p] + [s[p]] + s[p + 1..];
    WithoutParts(s[..p], s[p], s[p + 1..]);
  }

  function UpTo(n: nat): (r: seq<nat>)
    ensures |r| == n && forall i :: 0 <= i < n ==> r[i] == i
  {
    if n == 0 then [] else UpTo(n - 1) + [n - 1]
  }

  /** Fresh requests fill a cache in their order. */
  lemma {:induction false} UpToCached(n: nat, k: nat)
    requires n <= k
    ensures Cached(UpTo(n), k) == UpTo(n)
    decreases n
  {
    if n > 0 {
      UpToCached(n - 1, k);
      var u := UpTo(n - 1);
      assert UpTo(n)[..n - 1] == u;
      assert n - 1 !in u;
    }
  }

  lemma SplitSizes(file: seq<byte>, srcwinsz: nat, n: nat, bs: nat)
    requires srcwinsz > 0 && srcwinsz % MAX_LRU_SIZE == 0
    requires n == if |file| <= srcwinsz then 1 else MAX_LRU_SIZE
    requires bs == if |file| <= srcwinsz then srcwinsz else srcwinsz / MAX_LRU_SIZE
    ensures bs > 0 && n * bs == srcwinsz
  {
  }

  /** Splitting the buffer at multiples of the block size gives the first blocks of the file. */
  lemma SplitBlock(file: seq<byte>, srcwinsz: nat, n: nat, bs: nat, i: nat)
    requires bs > 0 && n * bs == srcwinsz && i < n && (n == 1 || |file| > srcwinsz) && (n == 1 ==> |file| <= srcwinsz)
    ensures var buffer := ReadFile(file, 0, srcwinsz);
            && bs * i <= Min(bs * (i + 1), |buffer|)
            && buffer[bs * i..Min(bs * (i + 1), |buffer|)] == Block(file, bs, i)
  {
    var buffer := ReadFile(file, 0, srcwinsz);
    assert buffer == file[..if srcwinsz < |file| then srcwinsz else |file|];
    if n == 1 {
      assert buffer == file && i == 0;
    } else {
      MulGrows(bs, i + 1, n);
      assert bs * (i + 1) == bs * i + bs && (i + 1) * bs == i * bs + bs;
      SliceOfSlice(file, 0, srcwinsz, bs * i, bs * (i + 1));
    }
  }

  /** The slot in place `k` of the list holds the block in place `k` of the recent ones. */
  ghost predicate MapsAt(order: seq<nat>, slots: seq<Slot>, cached: seq<nat>, k: nat) {
    k < |order| && k < |cached| && order[k] < |slots| && slots[order[k]].blkno == Some(cached[k])
  }

  ghost predicate Listed(order: seq<nat>, i: nat) {
    exists k: nat :: k < |order| && order[k] == i
  }

  ghost predicate Maps(order: seq<nat>, slots: seq<Slot>, cached: seq<nat>) {
    && |order| == |slots| == |cached| && Distinct(order)
    && (forall k: nat :: k < |order| ==> MapsAt(order, slots, cached, k))
    && (forall i: nat :: i < |slots| ==> Listed(order, i))
  }

  ghost predicate Right(slot: Slot, file: seq<byte>, blksize: nat) {
    slot.blkno.Some? && slot.data == Block(file, blksize, slot.blkno.value)
  }

  ghost predicate AllRight(slots: seq<Slot>, file: seq<byte>, blksize: nat) {
    forall i: nat :: i < |slots| ==> Right(slots[i], file, blksize)
  }

  lemma InitialMaps(slots: seq<Slot>, file: seq<byte>, bs: nat)
    requires forall k: nat :: k < |slots| ==> slots[k] == Slot(Some(k), Block(file, bs, k))
    ensures Maps(UpTo(|slots|), slots, UpTo(|slots|)) && AllRight(slots, file, bs)
  {
    forall i: nat | i < |slots| ensures Listed(UpTo(|slots|), i) { assert UpTo(|slots|)[i] == i; }
  }

  /** Moving a slot to the back of the list is moving its block to the end of the recent ones. */
  lemma PromoteMaps(o: seq<nat>, slots: seq<Slot>, c: seq<nat>, p: nat)
    requires Maps(o, slots, c) && p < |o|
    ensures o[p] !in o[..p] + o[p + 1..]
    ensures Maps(o[..p] + o[p + 1..] + [o[p]], slots, c[..p] + c[p + 1..] + [c[p]])
  {
    var o', c' := o[..p] + o[p + 1..] + [o[p]], c[..p] + c[p + 1..] + [c[p]];
    forall k: nat | k < |o'| ensures MapsAt(o', slots, c', k) {
      assert MapsAt(o, slots, c, if k < p then k else if k < |o| - 1 then k + 1 else p);
    }
    forall i: nat | i < |slots| ensures Listed(o', i) {
      assert Listed(o, i);
      var k: nat :| k < |o| && o[k] == i;
      assert o'[if k < p then k else if k > p then k - 1 else |o| - 1] == i;
    }
  }

  /** The same for the front slot, given a new block. */
  lemma ReplaceMaps(o: seq<nat>, slots: seq<Slot>, c: seq<nat>, b: nat, data: seq<byte>)
    requires Maps(o, slots, c) && o != []
    ensures o[0] < |slots| && o[0] !in o[1..] && Maps(o[1..] + [o[0]], slots[o[0] := Slot(Some(b), data)], c[1..] + [b])
  {
    assert MapsAt(o, slots, c, 0);
    var o', s', c' := o[1..] + [o[0]], slots[o[0] := Slot(Some(b), data)], c[1..] + [b];
    forall k: nat | k < |o'| ensures MapsAt(o', s', c', k) {
      if k < |o| - 1 { assert MapsAt(o, slots, c, k + 1); }
    }
    forall i: nat | i < |slots| ensures Listed(o', i) {
      assert Listed(o, i);
      var k: nat :| k < |o| && o[k] == i;
      assert o'[if k > 0 then k - 1 else |o| - 1] == i;
    }
  }

  method SplitBuffer(file: seq<byte>, buffer: seq<byte>, srcwinsz: nat, n: nat, bs: nat)
    returns (s: array<Slot>, l: List)
    requires buffer == ReadFile(file, 0, srcwinsz)
    requires bs > 0 && n * bs == srcwinsz && n > 0 && (n == 1 || |file| > srcwinsz) && (n == 1 ==> |file| <= srcwinsz)
    ensures fresh(s) && fresh(l) && fresh(l.next) && fresh(l.prev) && l.Valid() && l.n == n && l.order == UpTo(n)
            && s.Length == n
    ensures Maps(l.order, s[..], UpTo(n)) && AllRight(s[..], file, bs) && s[0].data == Block(file, bs, 0)
  {
    hide Block, ReadFile;
    l := new List(n);
    s := new Slot[n](_ => Slot(None, []));
    for i := 0 to n
      invariant l.Valid() && l.n == n && l.order == UpTo(i) && fresh(l) && fresh(l.next) && fresh(l.prev)
      invariant forall k :: 0 <= k < i ==> s[k] == Slot(Some(k), Block(file, bs, k))
    {
      SplitBlock(file, srcwinsz, n, bs, i);
      s[i] := Slot(Some(i), buffer[bs * i..Min(bs * (i + 1), |buffer|)]);
      l.PushBack(i);
    }
    InitialMaps(s[..], file, bs);
  }

  class Cache {
    const file: seq<byte>
    const blksize: nat
    const lruSize: nat
    const slots: array<Slot>
    const list: List
    var sourcePosition: nat
    /** The block that the library sees (`curblk`, `curblkno`, `onblk`). */
    var curblk: seq<byte>
    var curblkno: nat
    ghost var history: seq<nat>

    ghost predicate Valid()
      reads this, slots, list, list.next, list.prev
    {
      && blksize > 0 && 0 < lruSize == slots.Length == list.n && list.Valid()
      && Maps(list.order, slots[..], Cached(history, lruSize)) && AllRight(slots[..], file, blksize)
    }

    /** main_set_source, for a file of known size: a file that fits is one block; of another the
        beginning fills the buffer, which is then split into slots as if its blocks had been
        requested one after the other. */
    constructor (file: seq<byte>, srcwinsz: nat)
      requires srcwinsz > 0 && srcwinsz % MAX_LRU_SIZE == 0
      ensures Valid() && this.file == file && curblkno == 0 && curblk == Block(file, blksize, 0)
      ensures if |file| <= srcwinsz then blksize == srcwinsz && lruSize == 1 && history == [0]
              else blksize == srcwinsz / MAX_LRU_SIZE && lruSize == MAX_LRU_SIZE && history == UpTo(MAX_LRU_SIZE)
    {
      var whole := |file| <= srcwinsz;
      var n := if whole then 1 else MAX_LRU_SIZE;
      var bs := if whole then srcwinsz else srcwinsz / MAX_LRU_SIZE;
      SplitSizes(file, srcwinsz, n, bs);
      var buffer := ReadFile(file, 0, srcwinsz);
      var s, l := SplitBuffer(file, buffer, srcwinsz, n, bs);
      this.file, blksize, lruSize, slots, list := file, bs, n, s, l;
      sourcePosition, curblk, curblkno, history := |buffer|, s[0].data, 0, UpTo(n);
      new;
      UpToCached(n, n);
    }

    /** The search of main_getblk_lru: the slot, and its place in the list. */
    method Find(blkno: nat) returns (i: nat, ghost p: nat)
      requires Valid()
      ensures i <= lruSize && (i == lruSize <==> blkno !in Cached(history, lruSize))
      ensures i < lruSize ==>
                && p < |list.order| && list.order[p] == i
                && p < |Cached(history, lruSize)| && Cached(history, lruSize)[p] == blkno
    {
      hide Cached;
      ghost var c := Cached(history, lruSize);
      i, p := 0, 0;
      while i < lruSize && slots[i].blkno != Some(blkno)
        invariant i <= lruSize && forall j :: 0 <= j < i ==> slots[j].blkno != Some(blkno)
      {
        i := i + 1;
      }
      if i < lruSize {
        assert Listed(list.order, i);
        p :| p < |list.order| && list.order[p] == i;
        assert MapsAt(list.order, slots[..], c, p);
      } else {
        forall k | 0 <= k < |c| ensures c[k] != blkno { assert MapsAt(list.order, slots[..], c, k); }
      }
    }

    /** A hit: the slot moves to the back of the list. */
    method Promote(i: nat, ghost p: nat, ghost blkno: nat)
      requires Valid() && p < |list.order| && list.order[p] == i
      requires Cached(history + [blkno], lruSize)
               == Cached(history, lruSize)[..p] + Cached(history, lruSize)[p + 1..] + [Cached(history, lruSize)[p]]
      modifies this`history, list`order, list.next, list.prev
      ensures Valid() && history == old(history) + [blkno]
    {
      hide Cached, Maps, AllRight;
      PromoteMaps(list.order, slots[..], Cached(history, lruSize), p);
      list.Remove(i, p);
      list.PushBack(i);
      history := history + [blkno];
    }

    /** A miss: the least recent slot is read anew and moves to the back of the list. */
    method Replace(blkno: nat) returns (i: nat)
      requires Valid()
      requires Cached(history + [blkno], lruSize) == Cached(history, lruSize)[1..] + [blkno]
      modifies this`sourcePosition, this`history, slots, list`order, list.next, list.prev
      ensures Valid() && history == old(history) + [blkno]
      ensures i < slots.Length && slots[i].data == Block(file, blksize, blkno)
    {
      ghost var o, s := list.order, slots[..];
      ReplaceMaps(o, s, Cached(history, lruSize), blkno, Block(file, blksize, blkno));
      hide Cached, Maps;
      i := list.PopFront();
      list.PushBack(i);
      slots[i] := slots[i].(blkno := None);
      var data := ReadAt(blkno);
      slots[i] := Slot(Some(blkno), data);
      assert slots[..] == s[i := Slot(Some(blkno), data)];
      history := history + [blkno];
      AllStillRight(s, i, blkno);
    }

    lemma AllStillRight(s: seq<Slot>, i: nat, b: nat)
      requires AllRight(s, file, blksize) && i < |s|
      ensures AllRight(s[i := Slot(Some(b), Block(file, blksize, b))], file, blksize)
    {
    }

    /** The file is read at the block, after a seek if it stands elsewhere. */
    method ReadAt(blkno: nat) returns (data: seq<byte>)
      requires blksize > 0
      modifies this`sourcePosition
      ensures data == Block(file, blksize, blkno)
    {
      var pos := blkno * blksize;
      if pos != sourcePosition {
        sourcePosition := pos;
      }
      data := ReadFile(file, sourcePosition, blksize);
      sourcePosition := pos + |data|;
    }

    /** main_getblk_func. */
    method GetBlk(blkno: nat) returns (hit: bool)
      requires Valid()
      modifies this`sourcePosition, this`curblk, this`curblkno, this`history, slots, list`order, list.next, list.prev
      ensures Valid() && history == old(history) + [blkno]
      ensures hit <==> RequestedWithin(old(history), blkno, lruSize)
      ensures curblkno == blkno && curblk == Block(file, blksize, blkno)
    {
      hide RequestedWithin;
      CachedMeans(history, blkno, lruSize);
      CachedNext(history, blkno);
      var i;
      ghost var p;
      i, p := Find(blkno);
      hit := i < lruSize;
      if hit {
        SlotHolds(i, p);
        Promote(i, p, blkno);
      } else {
        i := Replace(blkno);
      }
      curblk, curblkno := slots[i].data, blkno;
    }

    /** What the next request does to a full cache. */
    lemma CachedNext(h: seq<nat>, b: nat)
      requires lruSize > 0 && |Cached(h, lruSize)| == lruSize
      ensures var c := Cached(h, lruSize);
              && (b !in c ==> Cached(h + [b], lruSize) == c[1..] + [b])
              && (forall p: nat :: p < |c| && c[p] == b ==> Cached(h + [b], lruSize) == c[..p] + c[p + 1..] + [c[p]])
    {
      var c := Cached(h, lruSize);
      assert (h + [b])[..|h|] == h;
      CachedFull(h, lruSize);
      forall p: nat | p < |c| && c[p] == b ensures Cached(h + [b], lruSize) == c[..p] + c[p + 1..] + [c[p]] {
        TouchedHit(c, p, lruSize);
      }
    }

    lemma SlotHolds(i: nat, p: nat)
      requires Valid() && p < |list.order| && list.order[p] == i
      ensures i < slots.Length && slots[i].data == Block(file, blksize, Cached(history, lruSize)[p])
    {
      assert MapsAt(list.order, slots[..], Cached(history, lruSize), p);
      assert Right(slots[..][i], file, blksize);
    }
  }

  /** Up to `n` bytes from a position on; none beyond the end. */
  function ReadFile(file: seq<byte>, pos: nat, n: nat): seq<byte> {
    if pos >= |file| then [] else file[pos..if pos + n < |file| then pos + n else |file|]
  }
}
