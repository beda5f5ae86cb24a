/**
 The search for matches in a target window: runs, earlier target bytes, and the source file.  What
 the hash tables hold is left open, and given as a parameter: any position before the input
 position, any position of the source.
 */
module StringMatch {
  import opened Bytes
  import opened CodeTable
  import opened BlockSource
  import opened SourceMatch
  import opened InstructionQueue
  import opened SourceWindow
  import opened WindowFormat
  import opened ReferenceEncoder
  import opened WindowEncoder

  const MIN_RUN: nat := 8

  /** xd3_smatcher and the encoder's flags: how much is looked at, how long the chains are, how long
      a match is long enough or too long for a lazy search. */
  datatype Config = Config(llook: nat, slook: nat, chain: nat, lazyChain: nat, maxLazy: nat, longEnough: nat,
                           sprevmask: nat, doSmall: bool, maxWinsize: nat)
  {
    predicate Valid() {
      llook > 0 && slook > 1 && chain > 0 && lazyChain > 0
    }
  }

  /** What the hash tables hold, 0 for nothing and otherwise an offset plus one: the small table for the
      bytes at a position; the chain of earlier positions, seen from a position; and the large table
      for the bytes at a position when the source has been indexed so far. */
  datatype Tables = Tables(small: nat -> nat, prev: (nat, nat) -> nat, large: (nat, nat) -> nat)

  // ----- xd3_smatch

  /** The target bytes at `off` and at `pos` agree for `n` bytes, and not for more. */
  ghost predicate Repeats(input: seq<byte>, off: nat, pos: nat, n: nat) {
    && off < pos && pos + n <= |input|
    && (forall k :: pos <= k < pos + n ==> input[k] == input[k - pos + off])
    && (pos + n < |input| ==> input[pos + n] != input[off + n])
  }

  method Expand(input: seq<byte>, base: nat, pos: nat) returns (n: nat)
    requires base < pos <= |input|
    ensures Repeats(input, base, pos, n)
  {
    n := 0;
    while pos + n < |input| && input[pos + n] == input[base + n]
      invariant pos + n <= |input| && forall k :: pos <= k < pos + n ==> input[k] == input[k - pos + base]
    {
      n := n + 1;
    }
  }

  /** None of these positions leads to a longer repetition. */
  ghost predicate NoneLonger(input: seq<byte>, pos: nat, visited: seq<nat>, best: nat) {
    forall i, n: nat :: 0 <= i < |visited| && Repeats(input, visited[i], pos, n) ==> n <= best
  }

  lemma OneMoreVisited(input: seq<byte>, pos: nat, visited: seq<nat>, best: nat, base: nat, n: nat)
    requires NoneLonger(input, pos, visited, best) && Repeats(input, base, pos, n)
    ensures NoneLonger(input, pos, visited + [base], Max(best, n))
  {
    forall i, m: nat | 0 <= i < |visited + [base]| && Repeats(input, (visited + [base])[i], pos, m)
      ensures m <= Max(best, n)
    {
      if i == |visited| {
        RepeatsOnce(input, base, pos, m, n);
      }
    }
  }

  lemma RepeatsOnce(input: seq<byte>, off: nat, pos: nat, m: nat, n: nat)
    requires Repeats(input, off, pos, m) && Repeats(input, off, pos, n)
    ensures m == n
  {
    if m < n {
      RepeatsAt(input, off, pos, n, m);
      assert false;
    } else if n < m {
      RepeatsAt(input, off, pos, m, n);
      assert false;
    }
  }

  lemma RepeatsAt(input: seq<byte>, off: nat, pos: nat, n: nat, j: nat)
    requires Repeats(input, off, pos, n) && j < n
    ensures input[pos + j] == input[off + j]
  {
    assert input[pos + j] == input[pos + j - pos + off];
  }

  /** A short match that is too far back to be worth a copy. */
  predicate TooFarForShort(length: nat, distance: int) {
    (length == 4 && distance >= 0x4000) || (length == 5 && distance >= 0x20_0000)
  }

  /** Where the chain leads from an earlier position: not forward, and not further back than it is kept. */
  function NextInChain(tables: Tables, mask: nat, pos: nat, base: nat): (next: Option<nat>)
    ensures next.Some? ==> next.value <= base
  {
    var prev := tables.prev(pos, base);
    if prev > 0 && prev - 1 <= base && pos - (prev - 1) <= mask then Some(prev - 1) else None
  }

  /** These positions are the chain from `base0` on, as far as they go. */
  ghost predicate Walked(tables: Tables, mask: nat, pos: nat, base0: nat, visited: seq<nat>) {
    && visited != [] && visited[0] == base0
    && forall i :: 0 <= i < |visited| - 1 ==> NextInChain(tables, mask, pos, visited[i]) == Some(visited[i + 1])
  }

  /** The walk may end here: as many as allowed, or the end of the chain, or a match that is long enough or
      goes to the end of the input. */
  ghost predicate MayEnd(tables: Tables, cfg: Config, input: seq<byte>, pos: nat, chain: nat, visited: seq<nat>,
                         best: nat) {
    || |visited| == chain || best >= cfg.longEnough || pos + best == |input|
    || (visited != [] && NextInChain(tables, cfg.sprevmask, pos, visited[|visited| - 1]) == None)
  }

  /** The longest of the matches at the positions visited is `best` bytes long and starts at `offset`. */
  ghost predicate LongestOf(input: seq<byte>, pos: nat, visited: seq<nat>, best: nat, offset: nat) {
    && NoneLonger(input, pos, visited, best)
    && (best > 0 ==> offset in visited && Repeats(input, offset, pos, best))
  }

  /** xd3_smatch: the longest of the matches that a chain of earlier positions leads to, or nothing if
      that is short and far.  Where the chain leads is up to the tables; `visited` is what was followed
      of it, until the chain ends or is long enough, or the match is. */
  method SMatch(input: seq<byte>, pos: nat, base0: nat, chain0: nat, cfg: Config, tables: Tables)
    returns (length: nat, offset: nat, ghost visited: seq<nat>, ghost best: nat)
    requires base0 < pos <= |input| && chain0 > 0
    ensures length > 0 ==> Repeats(input, offset, pos, length)
    ensures Walked(tables, cfg.sprevmask, pos, base0, visited) && |visited| <= chain0
    ensures MayEnd(tables, cfg, input, pos, chain0, visited, best)
    ensures LongestOf(input, pos, visited, best, offset)
    ensures length == if TooFarForShort(best, pos - offset) then 0 else best
  {
    var base: nat, chain: nat := base0, chain0;
    length, offset, visited := 0, 0, [];
    var more := true;
    while more
      invariant base < pos && LongestOf(input, pos, visited, length, offset)
      invariant more ==> chain > 0 && |visited| + chain == chain0
      invariant !more ==> visited != [] && |visited| <= chain0
      invariant visited != [] ==> Walked(tables, cfg.sprevmask, pos, base0, visited)
      invariant if more then
                  if visited == [] then base == base0
                  else NextInChain(tables, cfg.sprevmask, pos, visited[|visited| - 1]) == Some(base)
                else MayEnd(tables, cfg, input, pos, chain0, visited, length)
      decreases chain, more
    {
      hide NextInChain, Repeats, NoneLonger;
      var n := Expand(input, base, pos);
      OneMoreVisited(input, pos, visited, length, base, n);
      visited := visited + [base];
      more := true;
      if n > length {
        length, offset := n, base;
        if pos + n == |input| || n >= cfg.longEnough {
          more := false;
        }
      }
      if more {
        chain := chain - 1;
        var prev := Previous(tables, cfg.sprevmask, pos, base);
        if chain > 0 && prev.Some? {
          base := prev.value;
        } else {
          more := false;
        }
      }
    }
    best := length;
    if (length == 4 && pos - offset >= 0x4000) || (length == 5 && pos - offset >= 0x20_0000) {
      length := 0;
    }
  }

  method Previous(tables: Tables, mask: nat, pos: nat, base: nat) returns (next: Option<nat>)
    ensures next == NextInChain(tables, mask, pos, base) && (next.Some? ==> next.value <= base)
  {
    next := None;
    var prev := tables.prev(pos, base);
    if prev > 0 && prev - 1 <= base && pos - (prev - 1) <= mask {
      next := Some(prev - 1);
    }
  }

  /** What the small table suggests at a position: a repetition of `n` bytes from `off`, or none. */
  ghost predicate Suggested(tables: Tables, cfg: Config, input: seq<byte>, pos: nat, chain: nat, n: nat, off: nat) {
    var bucket := tables.small(pos);
    if cfg.doSmall && 0 < bucket && bucket - 1 < pos then
      exists visited: seq<nat>, best: nat ::
        && Walked(tables, cfg.sprevmask, pos, bucket - 1, visited) && |visited| <= chain
        && MayEnd(tables, cfg, input, pos, chain, visited, best) && LongestOf(input, pos, visited, best, off)
        && n == if TooFarForShort(best, pos - off) then 0 else best
    else n == 0
  }

  // ----- runs

  /** The run state of the bytes from `from` to `end`: they end in `n` times `c` and no more, or, when
      `n` is `most` or above, in at least `most` times `c`. */
  ghost predicate RunsUpTo(input: seq<byte>, from: nat, end: nat, n: nat, most: nat, c: byte) {
    && from <= end <= |input| && (n == 0 ==> end == from)
    && (forall k :: end - Min(n, most) <= k < end && from <= k ==> input[k] == c)
    && (n < most && n < end - from ==> input[end - n - 1] != c)
  }

  lemma RunSlides(input: seq<byte>, from: nat, end: nat, n: nat, most: nat, c: byte)
    requires RunsUpTo(input, from, end, n, most, c) && from + 1 < end
    ensures RunsUpTo(input, from + 1, end, n, most, c)
  {
  }

  /** NEXTRUN. */
  method NextRun(input: seq<byte>, ghost from: nat, end: nat, n0: nat, c0: byte, ghost most: nat)
    returns (n: nat, c: byte)
    requires end < |input| && RunsUpTo(input, from, end, n0, most, c0)
    ensures 0 < n <= n0 + 1 && RunsUpTo(input, from, end + 1, n, most, c)
  {
    if input[end] == c0 {
      n, c := n0 + 1, c0;
    } else {
      n, c := 1, input[end];
      assert n0 > 0 && most > 0 && from < end ==> input[end - 1] == c0;
    }
  }

  /** xd3_comprun. */
  method CompRun(input: seq<byte>, pos: nat, slook: nat) returns (n: nat, c: byte)
    requires pos + slook <= |input|
    ensures n <= slook && RunsUpTo(input, pos, pos + slook, n, slook, c)
  {
    n, c := 0, 0;
    for i := 0 to slook
      invariant n <= i && RunsUpTo(input, pos, pos + i, n, slook, c)
    {
      n, c := NextRun(input, pos, pos + i, n, c, slook);
    }
  }

  /** From `pos` on there are exactly `n` times `c`. */
  ghost predicate IsRun(input: seq<byte>, pos: nat, n: nat, c: byte) {
    && pos + n <= |input| && (forall k :: pos <= k < pos + n ==> input[k] == c)
    && (pos + n < |input| ==> input[pos + n] != c)
  }

  /** A run of the lookahead is expanded. */
  method ExpandRun(input: seq<byte>, pos: nat, slook: nat, c: byte) returns (n: nat)
    requires pos + slook <= |input| && RunsUpTo(input, pos, pos + slook, slook, slook, c)
    ensures slook <= n && IsRun(input, pos, n, c)
    ensures RunsUpTo(input, pos, pos + slook, n, slook, c)
  {
    n := slook;
    while pos + n < |input| && input[pos + n] == c
      invariant slook <= n && pos + n <= |input| && forall k :: pos <= k < pos + n ==> input[k] == c
    {
      n := n + 1;
    }
  }

  /** Equal bytes, enough of them for a run. */
  ghost predicate OneRun(input: seq<byte>) {
    |input| >= MIN_RUN && forall k :: 0 <= k < |input| ==> input[k] == input[0]
  }

  ghost function RunOf(input: seq<byte>): RInst
    requires input != []
  {
    RInst(RUN, input[0], 0, |input|, 0)
  }

  /** The source has these bytes at `at`. */
  predicate HasAt(source: seq<byte>, at: nat, input: seq<byte>) {
    at + |input| <= |source| && source[at..at + |input|] == input
  }

  ghost function CopyOf(input: seq<byte>, at: nat): RInst {
    RInst(CPY, 1, 0, |input|, at)
  }

  lemma RunReproduces(r: RInst, target: seq<byte>, source: seq<byte>)
    requires r.typ == RUN && 0 < r.size && IsRun(target, r.pos, r.size, r.xtra)
    ensures Reproduces(r, target, source)
  {
  }

  lemma CopyReproduces(r: RInst, target: seq<byte>, source: seq<byte>)
    requires r.typ == CPY && r.xtra == 0 && 0 < r.size && Repeats(target, r.addr, r.pos, r.size)
    ensures Reproduces(r, target, source)
  {
  }

  // ----- the matcher

  /** Why the search returned: at the end of the window; for a source block; or because the compaction
      of a full queue was left with two entries that overlap.  The code does not notice that and goes
      on with an entry that lies before what is encoded. */
  datatype Status = Finished | NeedBlock | Overlapped

  /** A full queue in which that can happen: correct instructions in order, at least one for every slot
      but one, that the compaction leaves as two which overlap. */
  ghost predicate CanOverlap(target: seq<byte>, source: seq<byte>, slots: nat) {
    exists q: seq<RInst> ::
      && Candidates(q) && Increasing(q) && slots <= |q| + 1 && Overlaps(Compacted(q, false))
      && forall k :: 0 <= k < |q| ==> Reproduces(q[k], target, source)
  }

  /** Every entry of a queue starts further on than the one before it. */
  lemma {:induction false} StartsSpread(q: seq<RInst>, k: nat)
    requires Increasing(q) && k < |q|
    ensures q[k].pos >= k
  {
    if k > 0 {
      StartsSpread(q, k - 1);
      assert q[k - 1].pos < q[k].pos;
    }
  }

  /** So it takes a window with more bytes than there are slots. */
  lemma OverlapNeedsRoom(target: seq<byte>, source: seq<byte>, slots: nat)
    requires CanOverlap(target, source, slots) && slots >= 2
    ensures slots + 2 <= |target|
  {
    hide Compacted;
    var q: seq<RInst> :| Candidates(q) && Increasing(q) && slots <= |q| + 1 && Overlaps(Compacted(q, false))
                         && forall k :: 0 <= k < |q| ==> Reproduces(q[k], target, source);
    StartsSpread(q, |q| - 1);
    assert Reproduces(q[|q| - 1], target, source) && q[|q| - 1].IsCandidate();
  }

  /** What the search saw at a position: how long the run is, how far the source was indexed and how far a
      match there reached, unless a block was too far back, and what the small table suggested. */
  datatype Seen = Seen(run: nat, indexed: nat, reach: nat, far: bool, n: nat, off: nat)

  /** What is queued at a position, if anything. */
  datatype Choice = Nothing | Queued(inst: RInst)

  /** How the loop of the search continues. */
  datatype Next = GoesOn | Restarts | Stops

  class Matcher {
    const cfg: Config
    const enc: Encoder
    const ext: Extender
    const tables: Tables
    var minMatch: nat
    var lastSrcpos: nat
    var cksumPos: nat

    constructor (cfg: Config, enc: Encoder, ext: Extender, tables: Tables, cksumPos: nat, lastSrcpos: nat)
      requires cfg.Valid() && Ready(cfg, enc, ext)
      ensures Valid() && this.cfg == cfg && this.enc == enc && this.ext == ext && this.lastSrcpos == lastSrcpos
      ensures this.tables == tables && this.cksumPos == cksumPos && minMatch == MIN_MATCH
    {
      hide Encoder.InStep;
      this.cfg, this.enc, this.ext, this.tables := cfg, enc, ext, tables;
      minMatch, this.lastSrcpos, this.cksumPos := MIN_MATCH, lastSrcpos, cksumPos;
      new;
      assert enc.LastMatched() == 0;
    }

    /** The queue is sound and is all before the input position; what is to be found next will end
        after it. */
    ghost predicate Placed()
      reads this`minMatch, ext`inputPosition, enc, enc.queue
    {
      && enc.unencoded <= ext.inputPosition
      && (enc.queue.used != [] ==> enc.queue.used[|enc.queue.used| - 1].pos < ext.inputPosition)
      && MIN_MATCH <= minMatch && enc.LastMatched() < ext.inputPosition + minMatch
    }

    ghost predicate Linked()
      reads enc
    {
      && cfg.Valid() && ext.input == enc.nextIn && ext.src.file == enc.src.source
      && this !in enc.Footprint() && ext !in enc.Footprint() && ext.src !in enc.Footprint()
    }

    ghost predicate QueueSound()
      reads enc.Footprint()
    {
      enc.Valid() && enc.QueueOk() && enc.Slots() == enc.ioptSize && enc.ioptSize >= 5 && !enc.flushing
    }

    /** A search in progress stays within the part not yet encoded, and within the source window
        once that is decided. */
    ghost predicate Bounded()
      reads ext, enc, enc.src
    {
      (ext.state == Backward || ext.state == Forward) ==>
        && ext.inputPosition < |ext.input| && enc.unencoded + ext.maxback <= ext.inputPosition
        && (enc.src.decided && ext.maxback + ext.maxfwd > 0 ==>
              enc.src.srcbase + ext.maxback <= ext.srcpos
                && ext.srcpos + ext.maxfwd <= enc.src.srcbase + enc.src.srclen)
    }

    ghost predicate Valid()
      reads this, ext, ext.src, enc, enc.Footprint()
    {
      && Linked() && ext.Valid() && QueueSound() && Placed() && Bounded()
    }

    /** An instruction that ends at `mlen` past the input position has just been queued. */
    ghost predicate Taken(mlen: nat)
      reads this, ext, ext.src, enc, enc.Footprint()
    {
      && Linked() && ext.Valid() && QueueSound() && enc.unencoded <= ext.inputPosition
      && ext.inputPosition + mlen <= |ext.input| && MIN_MATCH <= mlen && MIN_MATCH <= minMatch
      && enc.queue.used != [] && enc.queue.used[|enc.queue.used| - 1].pos <= ext.inputPosition
      && enc.LastMatched() == ext.inputPosition + mlen
      && ext.state != Backward && ext.state != Forward
    }

    lemma PlacedAfterEncoded()
      requires Placed() && ext.Valid()
      ensures enc.unencoded <= ext.inputPosition <= |ext.input|
    {
    }

    /** A search from `srcpos` may go `n` bytes back: not into what is encoded, and not outside the
        source or, once that is decided, the source window. */
    ghost predicate MayGoBack(srcpos: nat, n: nat)
      reads ext`inputPosition, enc`unencoded, enc.src`decided, enc.src`srcbase
    {
      enc.unencoded + n <= ext.inputPosition && n <= srcpos && (enc.src.decided ==> enc.src.srcbase + n <= srcpos)
    }

    /** And `n` bytes forward: not beyond the input, and likewise not outside source or window. */
    ghost predicate MayGoForward(srcpos: nat, n: nat)
      reads ext`inputPosition, enc.src`decided, enc.src`srcbase, enc.src`srclen
    {
      && ext.inputPosition + n <= |ext.input|
      && (enc.src.decided ==> srcpos + n <= enc.src.srcbase + enc.src.srclen)
      && (!enc.src.decided && enc.src.eofKnown ==> srcpos + n <= |ext.src.file|)
    }

    /** The bounds of a search: as far as it may go, either way. */
    method Bounds(srcpos: nat) returns (maxback: nat, maxfwd: nat)
      requires Linked() && ext.inputPosition <= |ext.input| && enc.unencoded <= ext.inputPosition
               && srcpos <= |ext.src.file|
      requires enc.src.decided ==> enc.src.srcbase <= srcpos <= enc.src.srcbase + enc.src.srclen
      ensures MayGoBack(srcpos, maxback) && !MayGoBack(srcpos, maxback + 1)
      ensures MayGoForward(srcpos, maxfwd) && !MayGoForward(srcpos, maxfwd + 1)
    {
      maxback := ext.inputPosition - enc.unencoded;
      maxfwd := |ext.input| - ext.inputPosition;
      if !enc.src.decided {
        maxback := if srcpos < maxback then srcpos else maxback;
        if enc.src.eofKnown {
          var srcavail := |ext.src.file| - srcpos;
          maxfwd := if srcavail < maxfwd then srcavail else maxfwd;
        }
      } else {
        var srcavail := srcpos - enc.src.srcbase;
        maxback := if srcavail < maxback then srcavail else maxback;
        srcavail := enc.src.srcbase + enc.src.srclen - srcpos;
        maxfwd := if srcavail < maxfwd then srcavail else maxfwd;
      }
    }

    /** No search from here: it would repeat itself, reach too far back, or start outside the source
        window that has been decided. */
    predicate Refused(srcpos: nat, indexed: nat)
      reads this`lastSrcpos, enc.src`decided, enc.src`srcbase, enc.src`srclen
    {
      || (srcpos != 0 && srcpos == lastSrcpos)
      || (srcpos < indexed && indexed - srcpos > cfg.maxWinsize)
      || (enc.src.decided && (srcpos < enc.src.srcbase || srcpos > enc.src.srcbase + enc.src.srclen))
    }

    /** The bounds of the search are the largest that it may go to. */
    ghost predicate BoundsAre(srcpos: nat, maxback: nat, maxfwd: nat)
      reads ext`inputPosition, enc`unencoded, enc.src`decided, enc.src`srcbase, enc.src`srclen
    {
      && MayGoBack(srcpos, maxback) && !MayGoBack(srcpos, maxback + 1)
      && MayGoForward(srcpos, maxfwd) && !MayGoForward(srcpos, maxfwd + 1)
    }

    /** xd3_source_match_setup: the bounds of a new search; false when it cannot lead anywhere. */
    method MatchSetup(srcpos: nat) returns (ok: bool)
      requires Valid() && srcpos <= |ext.src.file| && ext.inputPosition < |ext.input|
      modifies this`lastSrcpos, ext`srcpos, ext`back, ext`fwd, ext`maxback, ext`maxfwd, ext`state, ext`far
      ensures Valid() && ext.back == ext.fwd == 0 && !ext.far && lastSrcpos == srcpos
      ensures ok <==> !old(Refused(srcpos, cksumPos))
      ensures ok ==> ext.state == Backward && ext.srcpos == srcpos && BoundsAre(srcpos, ext.maxback, ext.maxfwd)
      ensures !ok ==> ext.state == Searching && ext.maxback == ext.maxfwd == 0
    {
      hide QueueSound;
      ok := !Refused(srcpos, cksumPos);
      if !ok {
        ext.Reset();
      } else {
        StartSearch(srcpos);
      }
      lastSrcpos := srcpos;
    }

    method StartSearch(srcpos: nat)
      requires Valid() && srcpos <= |ext.src.file| && ext.inputPosition < |ext.input| && !Refused(srcpos, cksumPos)
      modifies ext`srcpos, ext`back, ext`fwd, ext`maxback, ext`maxfwd, ext`state, ext`far
      ensures Valid() && ext.back == ext.fwd == 0 && ext.state == Backward && ext.srcpos == srcpos && !ext.far
      ensures BoundsAre(srcpos, ext.maxback, ext.maxfwd)
    {
      hide QueueSound;
      PlacedAfterEncoded();
      var maxback, maxfwd := Bounds(srcpos);
      ext.Begin(srcpos, maxback, maxfwd);
    }

    /** A correct instruction that ends far enough after everything queued. */
    ghost predicate CanEnter(r: RInst)
      reads this, ext, ext.src, enc, enc.Footprint()
    {
      && Linked() && ext.Valid() && QueueSound() && enc.Fits(r) && enc.Follows(r)
      && r.pos <= ext.inputPosition && MIN_MATCH <= r.End() - ext.inputPosition && MIN_MATCH <= minMatch
      && ext.state != Backward && ext.state != Forward
    }

    /** The first entry lies before what is encoded; everything else is as it should be. */
    ghost predicate Stale()
      reads enc, enc.Footprint()
    {
      CanOverlap(enc.nextIn, enc.src.source, enc.ioptSize) &&
      enc.Valid() && enc.EntriesOk() && enc.queue.used != [] && enc.queue.used[0].pos < enc.unencoded
    }

    /** It is put at the back of the queue. */
    method Enter(r: RInst) returns (status: Status)
      requires CanEnter(r)
      modifies enc, enc.acache, enc.acache.nearArray, enc.acache.sameArray, enc.src, enc.queue
      ensures status == if old(enc.queue.free) > 0 || !Overlaps(Compacted(old(enc.queue.used), false)) then Finished
                        else Overlapped
      ensures status == Finished ==> Taken(r.End() - ext.inputPosition)
      ensures status == Overlapped ==> Stale()
      ensures enc.queue.used != [] && enc.queue.used[|enc.queue.used| - 1] == r
      ensures old(enc.queue.free) > 0 ==> enc.queue.used == old(enc.queue.used) + [r]
      ensures old(enc.queue.free) > 0 ==> enc.State() == old(enc.State()) && unchanged(enc.src)
      ensures enc.src.Kept()
    {
      hide Compacted, Overlaps, Encoder.State, Encoder.InStep, CanOverlap;
      if enc.queue.free == 0 && Overlaps(Compacted(enc.queue.used, false)) { FullQueue(); }
      enc.Enqueue(r);
      status := if enc.unencoded <= enc.queue.used[0].pos then Finished else Overlapped;
    }

    lemma FullQueue()
      requires QueueSound() && enc.queue.free == 0 && Overlaps(Compacted(enc.queue.used, false))
      ensures CanOverlap(enc.nextIn, enc.src.source, enc.ioptSize)
    {
      hide Compacted, Overlaps, Reproduces, Encoder.InStep;
      var q := enc.queue.used;
      forall k | 0 <= k < |q| ensures Reproduces(q[k], enc.nextIn, enc.src.source) {
        assert enc.Fits(q[k]);
      }
    }

    /** The match is the last entry; when no flush was needed, the others are those of `q` that start
        before it. */
    ghost predicate Replaces(q: seq<RInst>, free: nat, r: RInst)
      reads enc.queue
    {
      && enc.queue.used != [] && enc.queue.used[|enc.queue.used| - 1] == r
      && (free > 0 || |Uncovered(q, r.pos)| < |q| ==> enc.queue.used == Uncovered(q, r.pos) + [r])
    }

    /** The range of source matches is the old one, grown by what it takes to hold the match. */
    ghost predicate Widened(minaddr: nat, maxaddr: nat, r: RInst)
      reads enc.src
    {
      && enc.src.minaddr == (if maxaddr == 0 then r.addr else Min(minaddr, r.addr))
      && enc.src.maxaddr == Max(maxaddr, r.addr + r.size)
    }

    /** What is left to do of xd3_source_extend_match once the match is as long as it gets: entries
        that it covers go, and it takes their place. */
    method TakeSource() returns (status: Status)
      requires Linked() && QueueSound() && Placed() && enc.src.hasSource
      requires ext.Active() && ext.state == Searching && MIN_MATCH <= minMatch <= ext.fwd
               && enc.unencoded + ext.maxback <= ext.inputPosition
      requires enc.src.decided ==>
                 enc.src.srcbase + ext.maxback <= ext.srcpos
                   && ext.srcpos + ext.maxfwd <= enc.src.srcbase + enc.src.srclen
      modifies ext`back, ext`state, ext`srcpos
      modifies enc, enc.acache, enc.acache.nearArray, enc.acache.sameArray, enc.src, enc.queue
      ensures status == Finished || (status == Overlapped && Stale())
      ensures status == Finished ==> Taken(ext.fwd) && ext.fwd == old(ext.fwd)
      ensures ext.state == Target ==> ext.inputPosition + ext.fwd == |ext.input|
      ensures status == Finished ==> LeftOff(old(ext.srcpos), ext.fwd)
      ensures var r := old(RInst(CPY, 1, ext.inputPosition - ext.back, ext.back + ext.fwd, ext.srcpos - ext.back));
              LastIs(r) && Replaces(old(enc.queue.used), old(enc.queue.free), r)
                && Widened(old(enc.src.minaddr), old(enc.src.maxaddr), r)
      ensures old(enc.queue.free) > 0 ==>
                status == Finished && enc.State() == old(enc.State()) && enc.src.decided == old(enc.src.decided)
    {
      hide Encoder.InStep, Reproduces, QueueSound, Placed, Encoder.Follows, Encoder.State, Matcher.Stale, Encoder.Valid,
           Extender.Agrees, Min;
      var r := RInst(CPY, 1, ext.inputPosition - ext.back, ext.back + ext.fwd, ext.srcpos - ext.back);
      SourceReproduces(r);
      EraseCovered(r);
      ext.back := 0;
      status := EnterSource(r);
      if status == Finished && r.End() == |ext.input| {
        hide Taken;
        ContinueNextWindow(r);
      }
    }

    /** Where the next window is to look first: where a match of the source that ends with the input leaves
        off. */
    ghost predicate LeftOff(srcpos: nat, reach: nat)
      reads ext`inputPosition, ext`state, ext`srcpos
    {
      if ext.inputPosition + reach == |ext.input| then ext.state == Target && ext.srcpos == srcpos + reach
      else ext.state == Searching && ext.srcpos == srcpos
    }

    /** The range of source matches grows, then the match is queued. */
    method EnterSource(r: RInst) returns (status: Status)
      requires Linked() && QueueSound() && ext.Valid() && ext.state == Searching && enc.src.hasSource
      requires enc.Follows(r) && Reproduces(r, enc.nextIn, enc.src.source) && r.typ == CPY && r.xtra == 1
      requires r.size > 0 && r.addr + r.size <= |enc.src.source|
      requires r.pos <= ext.inputPosition && MIN_MATCH <= r.End() - ext.inputPosition && MIN_MATCH <= minMatch
      requires enc.src.decided ==> enc.src.InRange(r.addr, r.size)
      modifies enc, enc.acache, enc.acache.nearArray, enc.acache.sameArray, enc.src, enc.queue
      ensures status == Finished || (status == Overlapped && Stale())
      ensures status == Finished ==> Taken(r.End() - ext.inputPosition)
      ensures enc.queue.used != [] && enc.queue.used[|enc.queue.used| - 1] == r
      ensures old(enc.queue.free) > 0 ==> enc.queue.used == old(enc.queue.used) + [r]
      ensures old(enc.queue.free) > 0 ==>
                status == Finished && enc.State() == old(enc.State()) && enc.src.decided == old(enc.src.decided)
      ensures Widened(old(enc.src.minaddr), old(enc.src.maxaddr), r)
    {
      hide Reproduces, Encoder.InStep, Encoder.State, Matcher.Stale;
      enc.WidenRange(r.addr, r.addr + r.size);
      status := Enter(r);
    }

    /** The match reaches the end of the input: the next window first looks where it leaves off. */
    method ContinueNextWindow(r: RInst)
      requires ext.inputPosition <= r.End() && Taken(r.End() - ext.inputPosition) && r.addr + r.size <= |ext.src.file|
      modifies ext`state, ext`srcpos
      ensures Taken(r.End() - ext.inputPosition) && ext.state == Target && ext.srcpos == r.addr + r.size
    {
      hide QueueSound, Extender.Active;
      ext.state, ext.srcpos := Target, r.addr + r.size;
    }

    lemma SourceReproduces(r: RInst)
      requires Linked() && ext.Active() && 0 < ext.fwd
      requires r == RInst(CPY, 1, ext.inputPosition - ext.back, ext.back + ext.fwd, ext.srcpos - ext.back)
      ensures Reproduces(r, enc.nextIn, enc.src.source)
    {
      forall k | r.pos <= k < r.End() ensures enc.nextIn[k] == enc.src.source[k - r.pos + r.addr] {
        assert k - r.pos + r.addr == k - ext.inputPosition + ext.srcpos;
      }
    }

    method EraseCovered(r: RInst)
      requires QueueSound() && Placed() && minMatch <= ext.fwd && ext.back <= ext.inputPosition
      requires r.pos == ext.inputPosition - ext.back && r.End() == ext.inputPosition + ext.fwd && r.typ == CPY
      requires enc.unencoded <= r.pos
      modifies enc.queue
      ensures QueueSound() && enc.Follows(r) && enc.State() == old(enc.State())
      ensures enc.queue.used == Uncovered(old(enc.queue.used), r.pos)
      ensures enc.queue.free + |enc.queue.used| == old(enc.queue.free + |enc.queue.used|)
    {
      hide Encoder.Valid;
      if ext.back > 0 {
        enc.Erase(r.pos, r.size);
      }
    }

    /** A match was taken and ends `ext.fwd` past the input position, or there is none. */
    ghost predicate Settled()
      reads this, ext, ext.src, enc, enc.Footprint()
    {
      && (ext.state != Backward && ext.state != Forward)
      && (if ext.fwd > 0 then Taken(ext.fwd) else Valid())
      && (ext.state == Target ==> ext.inputPosition + ext.fwd == |ext.input|)
    }

    /** How far the bytes from the input position and from `srcpos` on agree, within a bound. */
    ghost predicate Reaches(srcpos: nat, bound: nat, reach: nat)
      reads ext`inputPosition
    {
      && reach <= bound && ext.inputPosition + reach <= |ext.input| && srcpos + reach <= |ext.src.file|
      && (forall k :: ext.inputPosition <= k < ext.inputPosition + reach ==>
            ext.input[k] == ext.src.file[k - ext.inputPosition + srcpos])
      && (reach < bound && ext.inputPosition + reach < |ext.input| && srcpos + reach < |ext.src.file| ==>
            ext.input[ext.inputPosition + reach] != ext.src.file[srcpos + reach])
    }

    /** Going back any further, the bytes differ. */
    ghost predicate StopsBack(srcpos: nat, bound: nat, back: int)
      reads ext`inputPosition
    {
      0 <= back < bound && back < srcpos && back < ext.inputPosition
      && ext.inputPosition <= |ext.input| && srcpos <= |ext.src.file| ==>
        ext.src.file[srcpos - back - 1] != ext.input[ext.inputPosition - back - 1]
    }

    /** The search for how far the bytes agree, both ways. */
    method Stretch() returns (ok: bool)
      requires ext.Active() && (ext.state == Backward || ext.state == Forward)
      modifies ext`back, ext`fwd, ext`state, ext`far, ext.src`getblkno, ext.src`curblk, ext.src`curblkno
      ensures ext.Active() && ext.SameSearch()
      ensures !ok ==> ext.Waiting() && !ext.src.prompt
      ensures ok ==> ext.state == Searching
      ensures ext.src.prompt ==> ext.far == old(ext.far)
      ensures ok && !ext.far ==> Reaches(ext.srcpos, ext.maxfwd, ext.fwd)
      ensures ok && !ext.far ==> StopsBack(ext.srcpos, ext.maxback, ext.back)
    {
      hide Source.Valid;
      ok := ext.Extend();
    }

    /** xd3_source_extend_match: a match that reaches at least `minMatch` bytes forward, and only such a
        one, is taken: it replaces the entries that it covers. */
    method ExtendMatch() returns (status: Status, ghost taken: Option<RInst>, ghost reach: nat)
      requires Valid() && (ext.state == Backward || ext.state == Forward) && enc.src.hasSource
      modifies ext`back, ext`fwd, ext`state, ext`srcpos, ext`far, ext.src`getblkno, ext.src`curblk, ext.src`curblkno
      modifies enc, enc.acache, enc.acache.nearArray, enc.acache.sameArray, enc.src, enc.queue
      ensures status == NeedBlock ==> Valid() && (ext.state == Backward || ext.state == Forward) && !ext.src.prompt
      ensures status == Finished ==> Settled() && ext.fwd == if taken.Some? then reach else 0
      ensures status != NeedBlock ==> (taken.Some? <==> reach >= minMatch)
      ensures status != NeedBlock ==> ext.far || old(Reaches(ext.srcpos, ext.maxfwd, reach))
      ensures ext.src.prompt ==> ext.far == old(ext.far)
      ensures taken.Some? ==> taken.value.typ == CPY && taken.value.xtra == 1 && LastIs(taken.value)
      ensures taken.Some? ==> taken.value.pos <= ext.inputPosition && taken.value.End() == ext.inputPosition + reach
      ensures taken.Some? ==> taken.value.addr + ext.inputPosition == taken.value.pos + old(ext.srcpos)
                              && ext.inputPosition <= taken.value.pos + old(ext.maxback)
      ensures taken.Some? && !ext.far ==>
                old(StopsBack(ext.srcpos, ext.maxback, ext.inputPosition - taken.value.pos))
      ensures taken.Some? && status == Finished ==> LeftOff(old(ext.srcpos), reach)
      ensures taken.Some? ==> Replaces(old(enc.queue.used), old(enc.queue.free), taken.value)
      ensures taken.Some? ==> Widened(old(enc.src.minaddr), old(enc.src.maxaddr), taken.value)
      ensures taken.Some? && old(enc.queue.free) > 0 ==>
                status == Finished && enc.State() == old(enc.State()) && enc.src.decided == old(enc.src.decided)
      ensures status == Overlapped ==> Stale()
      ensures taken == None ==> unchanged(enc) && unchanged(enc.queue) && unchanged(enc.src) && status != Overlapped
    {
      hide QueueSound, Placed, Replaces, Widened, Matcher.Stale, Source.Valid, Encoder.State, Encoder.InStep, LastIs,
           Min, Reaches, StopsBack, LeftOff;
      taken := None;
      reach := 0;
      var ok := Stretch();
      if !ok {
        return NeedBlock, None, 0;
      }
      reach := ext.fwd;
      if ext.fwd < minMatch {
        ext.fwd := 0;
        status := Finished;
      } else {
        AtLeastMinMatch();
        taken := Some(RInst(CPY, 1, ext.inputPosition - ext.back, ext.back + ext.fwd, ext.srcpos - ext.back));
        status := TakeSource();
      }
    }

    lemma AtLeastMinMatch()
      requires Placed()
      ensures MIN_MATCH <= minMatch
    {
    }

    /** The top of the loop: how long the next match must be to end after the last one. */
    method Restart()
      requires Linked() && ext.Valid() && QueueSound() && ext.state != Backward && ext.state != Forward
      requires enc.unencoded <= ext.inputPosition
      requires enc.queue.used != [] ==> enc.queue.used[|enc.queue.used| - 1].pos < ext.inputPosition
      modifies this`minMatch
      ensures Valid() && minMatch == Max(MIN_MATCH, 1 + enc.LastMatched() - ext.inputPosition)
    {
      hide QueueSound;
      var last := enc.LastMatched();
      minMatch := if last > ext.inputPosition then Max(MIN_MATCH, 1 + last - ext.inputPosition) else MIN_MATCH;
    }

    /** HANDLELAZY: whether to look for something better at the next position. */
    predicate TryLazy(mlen: nat)
      reads ext
    {
      cfg.maxLazy > 0 && mlen < cfg.maxLazy && ext.inputPosition + mlen + 2 <= |ext.input|
    }

    /** On to the next byte after a match that is looked past. */
    method StepLazily(mlen: nat)
      requires Taken(mlen) && TryLazy(mlen)
      modifies this`minMatch, ext`inputPosition
      ensures Valid() && ext.inputPosition == old(ext.inputPosition) + 1 && minMatch == mlen
    {
      hide QueueSound;
      minMatch := mlen;
      ext.inputPosition := ext.inputPosition + 1;
    }

    /** On to the byte after a match. */
    method StepOver(mlen: nat)
      requires Taken(mlen)
      modifies this`minMatch, ext`inputPosition
      ensures Valid() && ext.inputPosition == old(ext.inputPosition) + mlen
    {
      hide QueueSound;
      ext.inputPosition := ext.inputPosition + mlen;
      Restart();
    }

    /** On to the next byte when nothing was found. */
    method StepOne()
      requires Valid() && ext.inputPosition < |ext.input| && ext.state != Backward && ext.state != Forward
      modifies this`minMatch, ext`inputPosition
      ensures Valid() && ext.inputPosition == old(ext.inputPosition) + 1
      ensures minMatch == Max(MIN_MATCH, old(minMatch) - 1)
    {
      hide QueueSound;
      if minMatch > MIN_MATCH {
        minMatch := minMatch - 1;
      }
      ext.inputPosition := ext.inputPosition + 1;
    }

    /** Between instructions, with no search of the source in progress. */
    ghost predicate Idle()
      reads this, ext, ext.src, enc, enc.Footprint()
    {
      Valid() && ext.state != Backward && ext.state != Forward && (enc.src.hasSource ==> ext.state == Searching)
    }

    /** A match of `mlen` bytes from the input position on was queued, or none was. */
    ghost predicate Found(mlen: nat)
      reads this, ext, ext.src, enc, enc.Footprint()
    {
      if mlen > 0 then Taken(mlen) && (enc.src.hasSource && ext.state == Target ==>
                                       ext.inputPosition + mlen == |ext.input|)
      else Idle()
    }

    /** A run or a target copy that was found at the input position. */
    ghost predicate Suits(r: RInst)
      reads this, ext
    {
      r.pos == ext.inputPosition && r.size >= minMatch && (r.typ == RUN || (r.typ == CPY && r.xtra == 0))
    }

    lemma SuitsCanEnter(r: RInst)
      requires Idle() && Suits(r) && Reproduces(r, enc.nextIn, enc.src.source)
      ensures CanEnter(r) && (enc.src.hasSource ==> ext.state == Searching)
    {
      hide Reproduces, Encoder.Valid, Encoder.State, Encoder.EntriesOk;
    }

    lemma TakenIsFound(mlen: nat)
      requires mlen > 0 && Taken(mlen) && (enc.src.hasSource ==> ext.state == Searching)
      ensures Found(mlen)
    {
      hide Taken;
    }

    lemma NothingFound()
      requires Idle()
      ensures Found(0)
    {
    }

    lemma SameInput()
      requires Idle()
      ensures ext.input == enc.nextIn && cfg.chain > 0 && cfg.lazyChain > 0
    {
    }

    /** The instruction was queued and nothing else happened to the encoder. */
    twostate predicate JustQueued(r: RInst)
      reads enc, enc.acache, enc.acache.nearArray, enc.acache.sameArray, enc.queue
    {
      enc.State() == old(enc.State()) && enc.queue.used == old(enc.queue.used) + [r]
    }

    ghost predicate LastIs(r: RInst)
      reads enc.queue
    {
      enc.queue.used != [] && enc.queue.used[|enc.queue.used| - 1] == r
    }

    /** A run that fills the lookahead: expanded, and queued exactly if it is long enough. */
    method TryRun(runC: byte) returns (status: Status, runL: nat, mlen: nat)
      requires Idle() && ext.inputPosition + cfg.slook <= |ext.input|
      requires RunsUpTo(ext.input, ext.inputPosition, ext.inputPosition + cfg.slook, cfg.slook, cfg.slook, runC)
      modifies enc, enc.acache, enc.acache.nearArray, enc.acache.sameArray, enc.src, enc.queue
      ensures status == Finished || (status == Overlapped && mlen > 0 && Stale())
      ensures RunsUpTo(ext.input, ext.inputPosition, ext.inputPosition + cfg.slook, runL, cfg.slook, runC)
      ensures IsRun(ext.input, ext.inputPosition, runL, runC)
      ensures mlen == if runL >= minMatch && runL >= MIN_RUN then runL else 0
      ensures mlen > 0 ==> LastIs(RInst(RUN, runC, ext.inputPosition, runL, 0))
      ensures mlen == 0 ==> unchanged(enc) && unchanged(enc.queue) && unchanged(enc.src)
      ensures old(enc.queue.free) > 0 ==> status == Finished
      ensures old(enc.queue.free) > 0 && mlen > 0 ==> JustQueued(RInst(RUN, runC, ext.inputPosition, runL, 0))
      ensures status == Finished ==> Found(mlen)
    {
      hide QueueSound, Placed, Bounded, Found, Taken, CanEnter, Reproduces, RunsUpTo, IsRun, Encoder.InStep,
           Encoder.State, Matcher.Stale, Compacted;
      SameInput();
      runL := ExpandRun(ext.input, ext.inputPosition, cfg.slook, runC);
      mlen, status := 0, Finished;
      if runL >= minMatch && runL >= MIN_RUN {
        var r := RInst(RUN, runC, ext.inputPosition, runL, 0);
        RunReproduces(r, enc.nextIn, enc.src.source);
        SuitsCanEnter(r);
        status := Enter(r);
        mlen := runL;
        if status == Finished { TakenIsFound(mlen); }
      } else {
        NothingFound();
      }
    }

    /** How much of the chain is followed. */
    function ChainLength(): nat
      reads this`minMatch
    {
      if minMatch == MIN_MATCH then cfg.chain else cfg.lazyChain
    }

    /** A copy from earlier in the target: what the small table suggests, `n` bytes from `off`, is queued
        exactly if it is long enough. */
    method TrySmall() returns (status: Status, mlen: nat, ghost n: nat, ghost off: nat)
      requires Idle() && ext.inputPosition + cfg.slook <= |ext.input|
      modifies enc, enc.acache, enc.acache.nearArray, enc.acache.sameArray, enc.src, enc.queue
      ensures status == Finished || (status == Overlapped && mlen > 0 && Stale())
      ensures Suggested(tables, cfg, ext.input, ext.inputPosition, ChainLength(), n, off)
      ensures mlen == if n >= minMatch then n else 0
      ensures mlen > 0 ==> LastIs(RInst(CPY, 0, ext.inputPosition, n, off))
      ensures mlen == 0 ==> unchanged(enc) && unchanged(enc.queue) && unchanged(enc.src)
      ensures status == Finished ==> Found(mlen)
    {
      hide QueueSound, Bounded, Found, Taken, CanEnter, Reproduces, Repeats, NoneLonger, Encoder.InStep,
           Encoder.State, Matcher.Stale, Compacted, Walked, MayEnd, LongestOf;
      SameInput();
      NothingFound();
      mlen, status := 0, Finished;
      n, off := 0, 0;
      var bucket := tables.small(ext.inputPosition);
      if cfg.doSmall && 0 < bucket && bucket - 1 < ext.inputPosition {
        var length, offset, _, _ := SMatch(ext.input, ext.inputPosition, bucket - 1, ChainLength(), cfg, tables);
        n, off := length, offset;
        if length >= minMatch {
          var r := RInst(CPY, 0, ext.inputPosition, length, offset);
          CopyReproduces(r, enc.nextIn, enc.src.source);
          SuitsCanEnter(r);
          status := Enter(r);
          mlen := length;
          if status == Finished { TakenIsFound(mlen); }
        }
      }
    }

    /** xd3_srcwin_move_point: indexes more of the source, and may need a block for that. */
    method MovePoint() returns (status: Status)
      requires Idle()
      modifies this`cksumPos
      ensures Idle() && (status == Finished || (status == NeedBlock && !ext.src.prompt))
    {
      hide QueueSound, Placed;
      cksumPos := *;
      status := Finished;
      if !ext.src.prompt {
        var blocked: bool := *;
        status := if blocked then NeedBlock else Finished;
      }
    }

    /** The large table, with the source indexed up to `indexed`, leads to a search. */
    ghost predicate Leads(indexed: nat)
      reads this`lastSrcpos, ext`inputPosition, enc.src`decided, enc.src`srcbase, enc.src`srclen
    {
      var bucket := tables.large(ext.inputPosition, indexed);
      0 < bucket && bucket - 1 <= |ext.src.file| && !Refused(bucket - 1, indexed)
    }

    /** A match from where it leads reaches this far forward and no further. */
    ghost predicate LeadsFor(indexed: nat, reach: nat)
      requires Leads(indexed)
      reads this`lastSrcpos, ext`inputPosition, enc.src`decided, enc.src`srcbase, enc.src`srclen
    {
      var srcpos := tables.large(ext.inputPosition, indexed) - 1;
      exists bound: nat ::
        MayGoForward(srcpos, bound) && !MayGoForward(srcpos, bound + 1) && Reaches(srcpos, bound, reach)
    }

    /** A copy from the source, where the large table points: taken exactly if it is long enough. */
    method TryLarge() returns (status: Status, mlen: nat, ghost taken: Option<RInst>, ghost indexed: nat,
                               ghost reach: nat)
      requires Idle() && enc.src.hasSource && ext.inputPosition < |ext.input|
      modifies this`cksumPos, this`lastSrcpos, ext`srcpos, ext`back, ext`fwd, ext`maxback, ext`maxfwd, ext`state,
               ext`far, ext.src`getblkno, ext.src`curblk, ext.src`curblkno
      modifies enc, enc.acache, enc.acache.nearArray, enc.acache.sameArray, enc.src, enc.queue
      ensures status == NeedBlock ==> Valid() && ext.state != Target && !ext.src.prompt
      ensures status == Finished ==> Found(mlen) && mlen == if taken.Some? then reach else 0
      ensures status == Finished ==> (taken.Some? <==> old(Leads(indexed)) && reach >= minMatch)
      ensures status == Finished && old(Leads(indexed)) && (ext.src.prompt || !ext.far) ==>
                old(LeadsFor(indexed, reach))
      ensures taken.Some? ==>
                var r := taken.value;
                && r.typ == CPY && r.xtra == 1 && r.End() == ext.inputPosition + reach && LastIs(r)
                && r.addr + ext.inputPosition + 1 == r.pos + tables.large(ext.inputPosition, indexed)
      ensures status == Finished && taken == None ==> unchanged(enc) && unchanged(enc.queue) && unchanged(enc.src)
      ensures status == Overlapped ==> Stale()
    {
      hide Taken, QueueSound, Placed, Bounded, Replaces, Widened, Encoder.InStep, Encoder.State, Matcher.Stale, LastIs;
      mlen, taken, reach := 0, None, 0;
      status := MovePoint();
      indexed := cksumPos;
      if status != Finished {
        return;
      }
      var bucket := tables.large(ext.inputPosition, cksumPos);
      if 0 < bucket && bucket - 1 <= |ext.src.file| {
        var ok := MatchSetup(bucket - 1);
        if ok {
          status, taken, reach := ExtendMatch();
          if status == Finished {
            mlen := ext.fwd;
          }
        }
      }
    }

    ghost predicate SourceNear()
      reads ext`inputPosition
    {
      enc.src.hasSource && ext.inputPosition + cfg.llook <= |ext.input|
    }

    ghost predicate RunDue(runL0: nat, runL: nat)
      reads this`minMatch
    {
      runL0 == cfg.slook && runL >= minMatch && runL >= MIN_RUN
    }

    /** The choice at a position: a run, if it is long enough; or else a match of the source; or else a
        repetition that the small table suggests; or else nothing. */
    ghost predicate Chosen(runL0: nat, runC: byte, what: Choice, seen: Seen)
      reads this`minMatch, this`lastSrcpos, ext`inputPosition, enc.src`decided, enc.src`srcbase, enc.src`srclen
    {
      && (if runL0 == cfg.slook then IsRun(ext.input, ext.inputPosition, seen.run, runC) else seen.run == runL0)
      && if RunDue(runL0, seen.run) then what == Queued(RInst(RUN, runC, ext.inputPosition, seen.run, 0))
         else
           && (SourceNear() && Leads(seen.indexed) && !seen.far ==> LeadsFor(seen.indexed, seen.reach))
           && if SourceNear() && Leads(seen.indexed) && seen.reach >= minMatch then
                what.Queued? && FromSource(what.inst, seen)
              else
                && Suggested(tables, cfg, ext.input, ext.inputPosition, ChainLength(), seen.n, seen.off)
                && what == if seen.n >= minMatch then Queued(RInst(CPY, 0, ext.inputPosition, seen.n, seen.off))
                  else Nothing
    }

    ghost predicate FromSource(r: RInst, seen: Seen)
      reads ext`inputPosition
    {
      && r.typ == CPY && r.xtra == 1 && r.End() == ext.inputPosition + seen.reach
      && r.addr + ext.inputPosition + 1 == r.pos + tables.large(ext.inputPosition, seen.indexed)
    }

    /** The three kinds of match, in the order of their cost, until one is queued. */
    method FindHere(runL0: nat, runC: byte)
      returns (status: Status, runL: nat, mlen: nat, ghost what: Choice, ghost seen: Seen)
      requires Idle() && ext.inputPosition + cfg.slook <= |ext.input|
      requires RunsUpTo(ext.input, ext.inputPosition, ext.inputPosition + cfg.slook, runL0, cfg.slook, runC)
      modifies this`cksumPos, this`lastSrcpos, ext`srcpos, ext`back, ext`fwd, ext`maxback, ext`maxfwd, ext`state,
               ext`far, ext.src`getblkno, ext.src`curblk, ext.src`curblkno
      modifies enc, enc.acache, enc.acache.nearArray, enc.acache.sameArray, enc.src, enc.queue
      ensures RunsUpTo(ext.input, ext.inputPosition, ext.inputPosition + cfg.slook, runL, cfg.slook, runC)
      ensures seen.run == runL && (runL0 == cfg.slook ==> IsRun(ext.input, ext.inputPosition, runL, runC))
      ensures status == NeedBlock ==> Valid() && enc.src.hasSource && ext.state != Target && !ext.src.prompt
      ensures status == Finished ==> Found(mlen)
      ensures status == Overlapped ==> Stale()
      ensures status == Finished ==> old(Chosen(runL0, runC, what, seen)) && (ext.src.prompt ==> !seen.far)
      ensures status == Finished ==> mlen == Reached(what)
      ensures status == Finished && what.Queued? ==> LastIs(what.inst)
      ensures status == Finished ==> (what.Queued? <==> mlen > 0)
      ensures old(RunDue(runL0, runL) && enc.queue.free > 0) ==>
                status == Finished && JustQueued(RInst(RUN, runC, ext.inputPosition, runL, 0))
    {
      hide Encoder.Valid, Config.Valid;
      hide Idle, Found, RunsUpTo, IsRun, Suggested, Matcher.Leads, LeadsFor, Matcher.Stale, Encoder.State,
           Matcher.Valid,
           LastIs, JustQueued;
      BeforeEnd();
      status, runL, mlen, what := Finished, runL0, 0, Nothing;
      seen := Seen(runL0, 0, 0, false, 0, 0);
      if runL == cfg.slook {
        status, runL, mlen := TryRun(runC);
        seen := seen.(run := runL);
        if mlen > 0 {
          what := Queued(RInst(RUN, runC, ext.inputPosition, runL, 0));
          return;
        }
        NoneFound();
      }
      if enc.src.hasSource && ext.inputPosition + cfg.llook <= |ext.input| {
        ghost var taken, indexed, reach;
        status, mlen, taken, indexed, reach := TryLarge();
        what := if taken.Some? then Queued(taken.value) else Nothing;
        seen := seen.(indexed := indexed, reach := reach, far := ext.far && !ext.src.prompt);
        if status != Finished || mlen > 0 {
          return;
        }
        NoneFound();
      }
      ghost var n, off;
      status, mlen, n, off := TrySmall();
      seen := seen.(n := n, off := off);
      what := if n >= minMatch then Queued(RInst(CPY, 0, ext.inputPosition, n, off)) else Nothing;
    }

    /** How far past the input position an instruction ends. */
    ghost function Reached(what: Choice): nat
      reads ext`inputPosition
    {
      if what.Queued? && what.inst.End() > ext.inputPosition then what.inst.End() - ext.inputPosition else 0
    }

    lemma NoneFound()
      requires Found(0)
      ensures Idle()
    {
    }

    lemma BeforeEnd()
      requires Idle()
      ensures cfg.llook > 0 && minMatch >= MIN_MATCH
    {
    }

    /** What may be left behind when the search returns. */
    ghost predicate Returned(status: Status)
      reads this, ext, ext.src, enc, enc.Footprint()
    {
      && (status == NeedBlock ==> Valid() && enc.src.hasSource && ext.state != Target && !ext.src.prompt)
      && (status == Overlapped ==> Stale())
      && (status == Finished ==> Linked() && QueueSound() && ext.Valid())
      && (status == Finished ==> ext.state != Backward && ext.state != Forward)
    }

    lemma SlookPositive()
      requires Linked()
      ensures cfg.slook > 1
    {
    }

    lemma FoundIsSound(mlen: nat)
      requires Found(mlen)
      ensures Linked() && QueueSound() && ext.Valid() && ext.inputPosition + mlen <= |ext.input|
      ensures mlen > 0 ==> Taken(mlen) && (enc.src.hasSource && ext.state == Target ==>
                                           ext.inputPosition + mlen == |ext.input|)
      ensures mlen == 0 ==> Idle()
      ensures ext.state != Backward && ext.state != Forward
    {
    }

    /** The loop can begin. */
    ghost predicate Again()
      reads this, ext, ext.src, enc, enc.Footprint()
    {
      && Valid() && ext.state != Backward && ext.state != Forward
      && (enc.src.hasSource && ext.state == Target ==> ext.inputPosition == |ext.input|)
    }

    /** Within the loop: a lookahead is left, and the run state is up to date. */
    ghost predicate InLoop(runL: nat, runC: byte)
      reads this, ext, ext.src, enc, enc.Footprint()
    {
      Idle() && ext.inputPosition + cfg.slook <= |ext.input|
      && RunsUpTo(ext.input, ext.inputPosition, ext.inputPosition + cfg.slook, runL, cfg.slook, runC)
    }

    /** One round of the loop: what is chosen at the position is queued; the loop is left behind it, or the
        search looks for something better at the next position, or moves on if there was nothing. */
    method OneByte(runL0: nat, runC0: byte)
      returns (status: Status, next: Next, runL: nat, runC: byte, ghost what: Choice, ghost seen: Seen)
      requires InLoop(runL0, runC0)
      modifies this`minMatch, this`cksumPos, this`lastSrcpos, ext`inputPosition, ext`srcpos, ext`back, ext`fwd,
               ext`maxback
      modifies ext`maxfwd, ext`state, ext`far, ext.src`getblkno, ext.src`curblk, ext.src`curblkno
      modifies enc, enc.acache, enc.acache.nearArray, enc.acache.sameArray, enc.src, enc.queue
      ensures next == GoesOn ==> InLoop(runL, runC)
      ensures next == Restarts ==> Again()
      ensures next == Stops ==> Returned(status)
      ensures status == Finished ==> old(Chosen(runL0, runC0, what, seen)) && (what.Queued? ==> LastIs(what.inst))
      ensures if status == Finished then Passed(next, what) else next == Stops
      ensures next == Stops && status == Finished ==> ext.inputPosition + cfg.slook >= |ext.input|
      ensures runL0 == cfg.slook ==> IsRun(ext.input, old(ext.inputPosition), seen.run, runC0)
      ensures old(ext.inputPosition) <= ext.inputPosition <= |ext.input|
      ensures next != Stops ==> old(ext.inputPosition) < ext.inputPosition
      ensures old(RunDue(runL0, seen.run) && enc.queue.free > 0) ==>
                status == Finished && JustQueued(RInst(RUN, runC0, old(ext.inputPosition), seen.run, 0))
      ensures ext.src.prompt ==> status != NeedBlock && (status == Finished ==> !seen.far)
    {
      hide QueueSound, Placed, Bounded, Taken, RunsUpTo, Found, Config.Valid, Encoder.Valid, Extender.Valid,
           Source.Valid, Chosen, Encoder.State, LastIs, JustQueued, Matcher.Stale, IsRun;
      var mlen;
      runC := runC0;
      status, runL, mlen, what, seen := FindHere(runL0, runC);
      next := Stops;
      if status != Finished {
        return;
      }
      FoundIsSound(mlen);
      if mlen > 0 && !TryLazy(mlen) {
        StepOver(mlen);
        next := Restarts;
      } else if ext.inputPosition + cfg.slook < |ext.input| {
        runL, runC := NextRun(ext.input, ext.inputPosition, ext.inputPosition + cfg.slook, runL, runC, cfg.slook);
        SlookPositive();
        RunSlides(ext.input, ext.inputPosition, ext.inputPosition + cfg.slook + 1, runL, cfg.slook, runC);
        if mlen > 0 {
          StepLazily(mlen);
        } else {
          StepOne();
        }
        next := GoesOn;
      }
    }

    /** The step from a position where this was found to the next. */
    twostate predicate Passed(next: Next, what: Choice)
      reads this, ext
    {
      && next == old(NextAfter(Reached(what)))
      && ext.inputPosition == old(ext.inputPosition) + (match next
                                                        case Restarts => old(Reached(what))
                                                        case GoesOn => 1
                                                        case Stops => 0)
      && (next == GoesOn ==>
            minMatch == if what.Queued? then old(Reached(what)) else Max(MIN_MATCH, old(minMatch) - 1))
    }

    /** How the loop goes on after a match of so many bytes, or none. */
    ghost function NextAfter(mlen: nat): Next
      reads ext
    {
      if mlen > 0 && !TryLazy(mlen) then Restarts
      else if ext.inputPosition + cfg.slook < |ext.input| then GoesOn
      else Stops
    }

    // ----- a window of equal bytes

    /** Nothing is queued or encoded yet. */
    ghost predicate AtStart()
      reads ext`inputPosition, enc`log, enc`unencoded, enc.queue
    {
      ext.inputPosition == 0 && enc.queue.used == [] && enc.queue.free > 0 && enc.log == [] && enc.unencoded == 0
    }

    /** This is all that is queued, and nothing is encoded. */
    ghost predicate Only(r: RInst)
      reads enc`log, enc`unencoded, enc.queue
    {
      enc.queue.used == [r] && enc.log == [] && enc.unencoded == 0
    }

    /** No source, and a target of equal bytes that fills the lookahead and makes a run. */
    ghost predicate Uniform() {
      !enc.src.hasSource && |ext.input| >= cfg.slook && OneRun(ext.input)
    }

    ghost function TheRun(): RInst
      requires Uniform()
    {
      RunOf(ext.input)
    }

    lemma UniformIsRun(n: nat, c: byte)
      requires Uniform() && c == ext.input[0] && IsRun(ext.input, 0, n, c)
      ensures n == |ext.input| && n >= MIN_RUN
    {
    }

    lemma UniformRun(runL: nat, runC: byte)
      requires Uniform() && cfg.slook > 1 && runL <= cfg.slook
      requires RunsUpTo(ext.input, 0, cfg.slook, runL, cfg.slook, runC)
      ensures runL == cfg.slook && runC == ext.input[0]
    {
      assert ext.input[cfg.slook - 1] == runC;
    }

    /** A round, and when it can be the last. */
    method Round(runL0: nat, runC0: byte) returns (status: Status, next: Next, runL: nat, runC: byte)
      requires InLoop(runL0, runC0)
      modifies this`minMatch, this`cksumPos, this`lastSrcpos, ext`inputPosition, ext`srcpos, ext`back, ext`fwd,
               ext`maxback
      modifies ext`maxfwd, ext`state, ext`far, ext.src`getblkno, ext.src`curblk, ext.src`curblkno
      modifies enc, enc.acache, enc.acache.nearArray, enc.acache.sameArray, enc.src, enc.queue
      ensures next == GoesOn ==> InLoop(runL, runC)
      ensures next == Restarts ==> Again()
      ensures next == Stops ==> Returned(status)
      ensures next == Stops && status == Finished ==> ext.inputPosition + cfg.slook >= |ext.input|
      ensures old(ext.inputPosition) <= ext.inputPosition <= |ext.input|
      ensures next != Stops ==> old(ext.inputPosition) < ext.inputPosition
      ensures old(AtStart() && minMatch == MIN_MATCH) && Uniform() && runL0 == cfg.slook && runC0 == ext.input[0] ==>
                status == Finished && next == Restarts && Only(TheRun()) && ext.inputPosition == |ext.input|
    {
      hide InLoop, Again, Returned, IsRun, Stale;
      ghost var what, seen;
      status, next, runL, runC, what, seen := OneByte(runL0, runC0);
      if old(AtStart() && minMatch == MIN_MATCH) && Uniform() && runL0 == cfg.slook && runC0 == ext.input[0] {
        UniformIsRun(seen.run, runC0);
      }
    }

    /** restartloop: the incremental state is set up anew, then the loop runs, to the end of the input or
        until a match has been taken. */
    method RestartLoop() returns (status: Status, next: Next)
      requires Again()
      modifies this`minMatch, this`cksumPos, this`lastSrcpos, ext`inputPosition, ext`srcpos, ext`back, ext`fwd,
               ext`maxback
      modifies ext`maxfwd, ext`state, ext`far, ext.src`getblkno, ext.src`curblk, ext.src`curblkno
      modifies enc, enc.acache, enc.acache.nearArray, enc.acache.sameArray, enc.src, enc.queue
      ensures next == Restarts ==> Again() && old(ext.inputPosition) < ext.inputPosition <= |ext.input|
      ensures next != Restarts ==> Returned(status)
      ensures next != Restarts && status == Finished ==> ext.inputPosition + cfg.slook >= |ext.input|
      ensures old(ext.inputPosition) + cfg.slook > |ext.input| ==>
                && status == Finished && next != Restarts
                && unchanged(enc) && unchanged(enc.queue) && unchanged(enc.src) && unchanged(ext)
      ensures old(AtStart()) && Uniform() ==> next == Restarts && Only(TheRun()) && ext.inputPosition == |ext.input|
    {
      hide QueueSound, Chosen, Passed, JustQueued, RunsUpTo, IsRun;
      status, next := Finished, Stops;
      if ext.inputPosition + cfg.slook > |ext.input| {
        return;
      }
      SlookPositive();
      ghost var uniform := AtStart() && Uniform();
      Restart();
      var runL, runC := CompRun(ext.input, ext.inputPosition, cfg.slook);
      if uniform { UniformRun(runL, runC); }
      if enc.src.hasSource && ext.inputPosition + cfg.llook <= |ext.input| {
        status := MovePoint();
        if status != Finished {
          return;
        }
      }
      next := GoesOn;
      while next == GoesOn
        invariant next == GoesOn ==> InLoop(runL, runC)
        invariant next == Restarts ==> Again() && old(ext.inputPosition) < ext.inputPosition <= |ext.input|
        invariant next == Stops ==> Returned(status)
        invariant next == Stops && status == Finished ==> ext.inputPosition + cfg.slook >= |ext.input|
        invariant old(ext.inputPosition) <= ext.inputPosition || next == Stops
        invariant uniform ==> Uniform()
        invariant uniform && next == GoesOn ==>
                    AtStart() && minMatch == MIN_MATCH && runL == cfg.slook && runC == ext.input[0]
        invariant uniform && next != GoesOn ==> next == Restarts && Only(TheRun()) && ext.inputPosition == |ext.input|
        decreases next == GoesOn, |ext.input| - ext.inputPosition
      {
        hide *;
        status, next, runL, runC := Round(runL, runC);
      }
    }

    /** xd3_string_match_: from the input position to the end of the window. */
    method Search() returns (status: Status)
      requires Again()
      modifies this`minMatch, this`cksumPos, this`lastSrcpos, ext`inputPosition, ext`srcpos, ext`back, ext`fwd,
               ext`maxback
      modifies ext`maxfwd, ext`state, ext`far, ext.src`getblkno, ext.src`curblk, ext.src`curblkno
      modifies enc, enc.acache, enc.acache.nearArray, enc.acache.sameArray, enc.src, enc.queue
      ensures Returned(status)
      ensures status == Finished ==> ext.inputPosition + cfg.slook >= |ext.input|
      ensures old(ext.inputPosition) + cfg.slook > |ext.input| ==>
                status == Finished && unchanged(enc) && unchanged(enc.queue) && unchanged(enc.src)
                && ext.state == old(ext.state) && ext.srcpos == old(ext.srcpos)
      ensures old(AtStart()) && Uniform() ==> status == Finished && Only(TheRun())
    {
      ghost var uniform := AtStart() && Uniform();
      ghost var over := ext.inputPosition + cfg.slook > |ext.input|;
      SlookPositive();
      var next := Restarts;
      status := Finished;
      while next == Restarts
        invariant if next == Restarts then Again() else Returned(status)
        invariant next == Restarts ==> ext.inputPosition <= |ext.input|
        invariant next != Restarts && status == Finished ==> ext.inputPosition + cfg.slook >= |ext.input|
        invariant over ==> unchanged(enc) && unchanged(enc.queue) && unchanged(enc.src) && unchanged(ext)
                           && status == Finished
        invariant uniform ==> Uniform()
        invariant uniform && next == Restarts ==>
                    AtStart() || (Only(TheRun()) && ext.inputPosition == |ext.input|)
        invariant uniform && next != Restarts ==> status == Finished && Only(TheRun())
        decreases next == Restarts, |ext.input| - ext.inputPosition
      {
        hide *;
        status, next := RestartLoop();
      }
    }

    /** Where the ENC_SEARCH step of xd3_encode_input may begin or go on. */
    ghost predicate Enterable()
      reads this, ext, ext.src, enc, enc.Footprint()
    {
      && Valid() && (enc.src.hasSource && ext.state == Target ==> ext.inputPosition == 0)
      && (!enc.src.hasSource ==> ext.state != Backward && ext.state != Forward)
    }

    /** A match that continues one at the end of the last window is tried first. */
    method TryTarget()
      requires Enterable() && enc.src.hasSource && ext.state == Target && ext.input != []
      modifies this`minMatch, this`cksumPos, this`lastSrcpos, ext`inputPosition, ext`srcpos, ext`back, ext`fwd,
               ext`maxback
      modifies ext`maxfwd, ext`state, ext`far, ext.src`getblkno, ext.src`curblk, ext.src`curblkno
      modifies enc, enc.acache, enc.acache.nearArray, enc.acache.sameArray, enc.src, enc.queue
      ensures Valid() && ext.state == Forward && ext.inputPosition == old(ext.inputPosition)
      ensures unchanged(enc) && unchanged(enc.queue) && unchanged(enc.src) && minMatch == old(minMatch) && !ext.far
      ensures !old(Refused(ext.srcpos, cksumPos)) ==>
                ext.srcpos == old(ext.srcpos) && BoundsAre(ext.srcpos, ext.maxback, ext.maxfwd)
    {
      hide QueueSound, BoundsAre;
      var _ := MatchSetup(ext.srcpos);
      ext.state := Forward;
    }

    /** A source that is there at once and has the target where the last window left off, or at its start
        for the first window. */
    ghost predicate Continues(at: nat)
      reads this`cksumPos, this`lastSrcpos, this`minMatch, ext`state, ext`srcpos, enc.src
    {
      && enc.src.hasSource && ext.src.prompt && HasAt(ext.src.file, at, ext.input)
      && |ext.input| >= MIN_MATCH == minMatch
      && ext.state == Target && ext.srcpos == at && !Refused(at, cksumPos)
      && !enc.src.decided && enc.src.maxaddr == 0
    }

    /** All of the target is one copy from `at`, and the next window is to look behind it. */
    ghost predicate OneCopy(at: nat)
      reads enc`log, enc`unencoded, enc.queue, enc.src
    {
      && Only(CopyOf(ext.input, at))
      && !enc.src.decided && enc.src.minaddr == at && enc.src.maxaddr == at + |ext.input|
    }

    ghost predicate Behind(at: nat)
      reads ext`state, ext`srcpos
    {
      ext.state == Target && ext.srcpos == at + |ext.input|
    }

    /** The bounds and the reach of the first search of such a window. */
    lemma ReachesAll(at: nat, maxback: nat, maxfwd: nat, reach: nat)
      requires AtStart() && HasAt(ext.src.file, at, ext.input) && Linked() && !enc.src.decided
      requires BoundsAre(at, maxback, maxfwd) && Reaches(at, maxfwd, reach)
      ensures maxback == 0 && reach == |ext.input|
    {
      assert maxfwd == |ext.input|;
      assert forall k :: 0 <= k < |ext.input| ==>
          ext.input[k] == ext.src.file[at..at + |ext.input|][k] == ext.src.file[at + k];
    }

    /** What was taken, if it reaches over the whole target. */
    lemma CopyTaken(r: RInst, at: nat, q: seq<RInst>, free: nat, minaddr: nat, maxaddr: nat)
      requires r == CopyOf(ext.input, at) && enc.log == [] && enc.unencoded == 0 && !enc.src.decided
      requires q == [] && free > 0 && maxaddr == 0 && Replaces(q, free, r) && Widened(minaddr, maxaddr, r)
      ensures OneCopy(at)
    {
    }

    /** A match that continues one from the last window, or that had to wait for a block, is extended and
        the search goes on behind it. */
    method FinishMatch() returns (status: Status)
      requires Enterable() && enc.src.hasSource && ext.input != [] && ext.state != Searching
      modifies this`minMatch, this`cksumPos, this`lastSrcpos, ext`inputPosition, ext`srcpos, ext`back, ext`fwd,
               ext`maxback
      modifies ext`maxfwd, ext`state, ext`far, ext.src`getblkno, ext.src`curblk, ext.src`curblkno
      modifies enc, enc.acache, enc.acache.nearArray, enc.acache.sameArray, enc.src, enc.queue
      ensures status == Finished ==> Again()
      ensures status != Finished ==> Returned(status)
      ensures var at := old(ext.srcpos);
              old(AtStart() && Continues(ext.srcpos)) ==>
                status == Finished && OneCopy(at) && Behind(at) && ext.inputPosition == |ext.input|
    {
      hide QueueSound, Placed, Bounded, Taken, BoundsAre, Reaches, Widened, Replaces, Encoder.InStep, Matcher.Stale,
           StopsBack, HasAt, Refused;
      ghost var at := ext.srcpos;
      ghost var copies := AtStart() && Continues(at);
      ghost var q, free, minaddr, maxaddr := enc.queue.used, enc.queue.free, enc.src.minaddr, enc.src.maxaddr;
      if ext.state == Target {
        TryTarget();
      }
      ghost var taken, reach;
      ghost var maxback, maxfwd := ext.maxback, ext.maxfwd;
      if copies {
        forall reach: nat | Reaches(at, maxfwd, reach) ensures maxback == 0 && reach == |ext.input| {
          ReachesAll(at, maxback, maxfwd, reach);
        }
      }
      status, taken, reach := ExtendMatch();
      if copies { CopyTaken(taken.value, at, q, free, minaddr, maxaddr); }
      if status != Finished {
        return;
      }
      PassMatch();
    }

    /** The ENC_SEARCH step: called again after XD3_GETSRCBLK, it goes on where it was. */
    method MatchWindow() returns (status: Status)
      requires Enterable()
      modifies this`minMatch, this`cksumPos, this`lastSrcpos, ext`inputPosition, ext`srcpos, ext`back, ext`fwd,
               ext`maxback
      modifies ext`maxfwd, ext`state, ext`far, ext.src`getblkno, ext.src`curblk, ext.src`curblkno
      modifies enc, enc.acache, enc.acache.nearArray, enc.acache.sameArray, enc.src, enc.queue
      ensures Returned(status)
      ensures status == Finished && ext.input != [] ==> ext.inputPosition + cfg.slook >= |ext.input|
      ensures old(AtStart()) && Uniform() ==> status == Finished && Only(TheRun())
      ensures var at := old(ext.srcpos);
              old(AtStart() && Continues(ext.srcpos)) ==> status == Finished && OneCopy(at) && Behind(at)
    {
      hide QueueSound, Placed, Bounded, Taken, OneCopy;
      status := Finished;
      if ext.input == [] {
        EmptyIsIdle();
        if enc.src.hasSource && ext.state == Target {
          ext.state, ext.fwd := Searching, 0;
        }
        return;
      }
      if enc.src.hasSource && ext.state != Searching {
        status := FinishMatch();
        if status != Finished {
          return;
        }
      }
      SlookPositive();
      status := Search();
    }

    lemma EmptyIsIdle()
      requires Valid() && ext.input == []
      ensures ext.state != Backward && ext.state != Forward
    {
    }

    /** The search goes on behind the match that was found. */
    method PassMatch()
      requires Settled()
      modifies ext`inputPosition
      ensures Again() && ext.inputPosition == old(ext.inputPosition) + ext.fwd
    {
      hide QueueSound;
      if ext.fwd > 0 {
        TakenReaches(ext.fwd);
        ext.inputPosition := ext.inputPosition + ext.fwd;
      }
    }

    lemma TakenReaches(mlen: nat)
      requires Taken(mlen)
      ensures ext.inputPosition + mlen <= |ext.input|
    {
    }
  }

  /** The caller answers XD3_GETSRCBLK. */
  method BlockArrives(m: Matcher)
    requires m.Returned(NeedBlock)
    modifies m.ext.src`curblk, m.ext.src`curblkno
    ensures m.Enterable()
  {
    hide Matcher.QueueSound, Matcher.Placed, Matcher.Bounded;
    m.ext.src.Supply();
  }

  lemma SearchEnds(m: Matcher)
    requires m.Returned(Finished)
    ensures m.enc.Valid() && m.enc.QueueOk() && Carry(m.ext.state, m.ext.srcpos, m.lastSrcpos).Fits(|m.enc.src.source|)
  {
  }

  /** A queue of one entry that is all of the target is encoded as that. */
  lemma OneEntry(r: RInst, n: nat)
    requires r.IsCandidate() && r.pos == 0 && r.End() == n
    ensures Candidates([r]) && Increasing([r]) && Compacted([r], true) == [r]
    ensures [] + Laid([r], 0) + Gap(EndFrom([r], 0), n) == [r]
  {
    assert [r][..0] == [];
  }

  /** And its literal bytes are the DATA section. */
  lemma OneLiteral(source: Option<seq<byte>>, target: seq<byte>, srcbase: nat, srclen: nat, data: seq<byte>,
                   inst: seq<byte>, addr: seq<byte>, r: RInst)
    requires LogWritten(source, target, srcbase, srclen, data, inst, addr, [r]) && r.typ != ADD
    ensures data == if r.typ == RUN then [r.xtra] else []
    ensures r.typ == CPY && r.xtra != 0 ==> srcbase <= r.addr && r.addr + r.size <= srcbase + srclen
  {
    hide Write, Tiles;
    assert Right(Place(srcbase, srclen), target, Contents(source), [r][0]);
    DataIsLiterals(Place(srcbase, srclen), target, Contents(source), [r]);
    assert [r][..0] == [];
  }

  lemma SearchPauses(m: Matcher, status: Status)
    requires m.Returned(status)
    ensures status == NeedBlock ==> m.enc.src.hasSource && !m.ext.src.prompt
    ensures status == Overlapped ==> CanOverlap(m.enc.nextIn, m.enc.src.source, m.enc.ioptSize)
  {
    hide CanOverlap;
  }

  lemma WindowEncodes(enc: Encoder, source: Option<seq<byte>>)
    requires enc.src.Valid() && enc.src.hasSource == source.Some? && enc.src.source == Contents(source)
    requires enc.Complete() && |enc.nextIn| < TWO64
    requires enc.src.srcbase + enc.src.srclen <= |enc.src.source| + |enc.nextIn| + |enc.nextIn| / 4
    requires forall blksize: nat | blksize > 0 :: enc.Decodes(blksize)
    ensures Encodes(source, enc.nextIn, enc.src.srcbase, enc.src.srclen, enc.dataSect, enc.instSect, enc.addrSect)
    ensures LogWritten(source, enc.nextIn, enc.src.srcbase, enc.src.srclen, enc.dataSect, enc.instSect, enc.addrSect,
                       enc.log)
  {
    hide DecodeWindow, AllSized, StartState, Write, AllRight, Tiles, EndOf, Trace, AllStand;
    WrittenBrief(enc.Where(), enc.nextIn, enc.src.source, enc.log);
    forall blksize: nat | blksize > 0
      ensures var w := Window(Contents(source), blksize, enc.src.srcbase, enc.src.srclen, |enc.nextIn|);
              && w.Valid() && DecodeWindow(w, enc.dataSect, enc.instSect, enc.addrSect) == Ok(enc.nextIn)
              && AllSized(w, StartState(w, enc.dataSect, enc.instSect, enc.addrSect))
    {
      assert enc.Decodes(blksize);
    }
  }

  /** The sections are what this list of instructions is written as, and the list makes up the target. */
  ghost predicate LogWritten(source: Option<seq<byte>>, target: seq<byte>, srcbase: nat, srclen: nat,
                             data: seq<byte>, inst: seq<byte>, addr: seq<byte>, log: seq<RInst>) {
    var p := Place(srcbase, srclen);
    && AllRight(p, target, Contents(source), log) && Tiles(log) && EndOf(log) == |target|
    && Written(data, inst, addr) == Write(p, target, Contents(source), log)
  }

  /** An encoder and an extender at the start of the same window. */
  ghost predicate Ready(cfg: Config, enc: Encoder, ext: Extender)
    reads ext, ext.src, enc, enc.Footprint()
  {
    && enc.Valid() && enc.queue.used == [] && enc.unencoded == 0 && enc.iout == None && enc.log == []
      && enc.Slots() == enc.ioptSize && enc.ioptSize >= 5
    && !enc.flushing
    && ext.Valid() && (ext.state == Target || ext.state == Searching) && ext.inputPosition == 0
    && ext.input == enc.nextIn && ext.src.file == enc.src.source
    && ext !in enc.Footprint() && ext.src !in enc.Footprint()
  }

  /** What the search carries from one window to the next: `match_state`, `match_srcpos` and
      `match_last_srcpos`. */
  datatype Carry = Carry(state: MatchState, srcpos: nat, lastSrcpos: nat) {
    predicate Fits(size: nat) {
      (state == Target || state == Searching) && srcpos <= size
    }

    /** The source goes on with the target where the last window left off, or starts with it for the first
        window, and that is not too far back. */
    predicate Leads(cfg: Config, source: seq<byte>, target: seq<byte>, indexed: nat) {
      && state == Target && HasAt(source, srcpos, target) && |target| >= MIN_MATCH
      && (srcpos == 0 || srcpos != lastSrcpos)
      && (srcpos < indexed ==> indexed - srcpos <= cfg.maxWinsize)
    }
  }

  /** Before the first window. */
  const FIRST_CARRY := Carry(Target, 0, 0)

  function Contents(source: Option<seq<byte>>): seq<byte> {
    if source.Some? then source.value else []
  }

  method NewWindow(cfg: Config, target: seq<byte>, source: Option<seq<byte>>, eof: bool, slots: nat, blksize: nat,
                   prompt: bool, tables: Tables, cksumPos: nat, carry: Carry)
    returns (m: Matcher)
    requires cfg.Valid() && slots >= 5 && blksize > 0
    requires |Contents(source)| + 3 * |target| < TWO64 && carry.Fits(|Contents(source)|)
    ensures fresh(m) && fresh(m.ext) && fresh(m.ext.src) && fresh(m.enc.Footprint()) && m.Enterable()
    ensures m.enc.nextIn == target && m.enc.src.source == Contents(source) && m.enc.src.hasSource == source.Some?
    ensures m.ext.input == target && m.ext.src.file == Contents(source)
    ensures m.ext.src.blksize == blksize && m.ext.src.prompt == prompt && m.enc.ioptSize == slots
    ensures m.cfg == cfg && m.tables == tables && m.cksumPos == cksumPos && m.minMatch == MIN_MATCH
    ensures m.AtStart() && !m.enc.src.decided && m.enc.src.maxaddr == 0 && m.enc.ioptSize == slots
    ensures m.ext.state == carry.state && m.ext.srcpos == carry.srcpos && m.lastSrcpos == carry.lastSrcpos
  {
    hide Encoder.Valid, Encoder.State, Matcher.Valid;
    var enc := new Encoder(target, source, eof, slots);
    var src := new Source(enc.src.source, blksize, prompt);
    var ext := new Extender(src, target);
    ext.state, ext.srcpos := carry.state, carry.srcpos;
    m := new Matcher(cfg, enc, ext, tables, cksumPos, carry.lastSrcpos);
  }

  /** The sections decode to the target window, whatever the size of the decoder's blocks; none of the
      instructions is empty, and sizes and offsets stay in bounds. */
  ghost predicate Encodes(source: Option<seq<byte>>, target: seq<byte>, srcbase: nat, srclen: nat,
                          data: seq<byte>, inst: seq<byte>, addr: seq<byte>) {
    && (srclen > 0 ==> source.Some?) && srcbase + srclen <= |Contents(source)| + |target| + |target| / 4
    && |data| + |inst| + |addr| <= 22 * |target|
    && forall blksize: nat | blksize > 0 ::
         var w := Window(Contents(source), blksize, srcbase, srclen, |target|);
         w.Valid() && DecodeWindow(w, data, inst, addr) == Ok(target) && AllSized(w, StartState(w, data, inst, addr))
  }

  /** A whole window, searched and encoded, with at most `calls` blocks supplied on request, from
      whatever the search of the window before it left behind: if the search comes to its end, the
      three sections are those of the instructions `log`, and decode to the target window, whatever the
      hash tables held, whichever matches were taken, lazily or not, and whenever the search paused.
      It comes to its end unless it is left waiting for a block, or the queue was full and could not be
      compacted. */
  method EncodeWindow(cfg: Config, target: seq<byte>, source: Option<seq<byte>>, eof: bool, slots: nat, blksize: nat,
                      prompt: bool, tables: Tables, cksumPos: nat, carry: Carry, calls: nat)
    returns (status: Status, srcbase: nat, srclen: nat, data: seq<byte>, inst: seq<byte>, addr: seq<byte>, next: Carry,
             ghost log: seq<RInst>)
    requires cfg.Valid() && slots >= 5 && blksize > 0
    requires |Contents(source)| + 3 * |target| < TWO64 && carry.Fits(|Contents(source)|)
    ensures status == Finished ==> Encodes(source, target, srcbase, srclen, data, inst, addr)
    ensures status == Finished ==> LogWritten(source, target, srcbase, srclen, data, inst, addr, log)
    ensures status == Finished ==> next.Fits(|Contents(source)|)
    ensures status == NeedBlock ==> source.Some? && !prompt
    ensures status == Overlapped ==> CanOverlap(target, Contents(source), slots)
    ensures source.None? && |target| >= cfg.slook && OneRun(target) ==>
              status == Finished && log == [RunOf(target)] && data == [target[0]]
    ensures source.Some? && prompt && carry.Leads(cfg, source.value, target, cksumPos) ==>
              && status == Finished && log == [CopyOf(target, carry.srcpos)] && data == []
              && srcbase == carry.srcpos && srclen == |target|
              && next.state == Target && next.srcpos == carry.srcpos + |target|
  {
    hide Encodes, LogWritten, Matcher.Enterable, Matcher.Returned, CanOverlap, Encoder.Valid, Matcher.AtStart,
         Matcher.Uniform, Matcher.Continues, Matcher.Only, Matcher.OneCopy;
    var m := NewWindow(cfg, target, source, eof, slots, blksize, prompt, tables, cksumPos, carry);
    ghost var uniform := source.None? && |target| >= cfg.slook && OneRun(target);
    ghost var begins := source.Some? && prompt && carry.Leads(cfg, source.value, target, cksumPos);
    Laws(m, uniform, begins, carry);
    srcbase, srclen, data, inst, addr, next, log := 0, 0, [], [], [], carry, [];
    status := SearchWindow(m, calls, uniform, begins);
    if status == Finished {
      SearchEnds(m);
      next := Carry(m.ext.state, m.ext.srcpos, m.lastSrcpos);
      srcbase, srclen, data, inst, addr, log := CloseWindow(m, source, uniform, begins, carry.srcpos);
    } else {
      SearchPauses(m, status);
    }
  }

  /** The search of a window, resumed as long as a block can be supplied. */
  method SearchWindow(m: Matcher, calls: nat, ghost uniform: bool, ghost begins: bool) returns (status: Status)
    requires m.Enterable() && m.AtStart() && (uniform ==> m.Uniform()) && (begins ==> m.Continues(m.ext.srcpos))
    modifies m`minMatch, m`cksumPos, m`lastSrcpos, m.ext, m.ext.src
    modifies m.enc, m.enc.acache, m.enc.acache.nearArray, m.enc.acache.sameArray, m.enc.src, m.enc.queue
    ensures m.Returned(status)
    ensures uniform ==> m.Uniform() && status == Finished && m.Only(m.TheRun())
    ensures var at := old(m.ext.srcpos); begins ==> status == Finished && m.OneCopy(at) && m.Behind(at)
  {
    hide *;
    ghost var at := m.ext.srcpos;
    status := m.MatchWindow();
    for n := 0 to calls
      invariant m.Returned(status)
      invariant uniform ==> m.Uniform() && status == Finished && m.Only(m.TheRun())
      invariant begins ==> status == Finished && m.OneCopy(at) && m.Behind(at)
    {
      if status != NeedBlock {
        break;
      }
      BlockArrives(m);
      status := m.MatchWindow();
    }
  }

  /** When the laws of whole windows apply. */
  lemma Laws(m: Matcher, uniform: bool, begins: bool, carry: Carry)
    requires uniform ==> !m.enc.src.hasSource && |m.ext.input| >= m.cfg.slook && OneRun(m.ext.input)
    requires m.ext.state == carry.state && m.ext.srcpos == carry.srcpos && m.lastSrcpos == carry.lastSrcpos
    requires begins ==> m.enc.src.hasSource && m.ext.src.prompt
    requires begins ==> carry.Leads(m.cfg, m.ext.src.file, m.ext.input, m.cksumPos)
    requires m.minMatch == MIN_MATCH && !m.enc.src.decided && m.enc.src.maxaddr == 0
    ensures uniform ==> m.Uniform()
    ensures begins ==> m.Continues(m.ext.srcpos)
  {
  }

  /** The ENC_INSTR step and what is left for the header. */
  method CloseWindow(m: Matcher, source: Option<seq<byte>>, ghost uniform: bool, ghost begins: bool,
                     ghost at: nat)
    returns (srcbase: nat, srclen: nat, data: seq<byte>, inst: seq<byte>, addr: seq<byte>, ghost log: seq<RInst>)
    requires m.Returned(Finished) && m.enc.src.hasSource == source.Some? && m.enc.src.source == Contents(source)
    requires |Contents(source)| + 3 * |m.enc.nextIn| < TWO64
    requires uniform ==> m.Uniform() && m.Only(m.TheRun())
    requires begins ==> m.OneCopy(at) && m.enc.src.hasSource && |m.ext.input| >= MIN_MATCH
    modifies m.enc, m.enc.acache, m.enc.acache.nearArray, m.enc.acache.sameArray, m.enc.src, m.enc.queue
    ensures Encodes(source, m.enc.nextIn, srcbase, srclen, data, inst, addr)
    ensures LogWritten(source, m.enc.nextIn, srcbase, srclen, data, inst, addr, log)
    ensures uniform ==> m.ext.input != [] && log == [RunOf(m.ext.input)] && data == [m.ext.input[0]]
    ensures begins ==> log == [CopyOf(m.ext.input, at)] && data == [] && srcbase == at && srclen == |m.ext.input|
  {
    hide Encoder.Valid, Encoder.Complete, Encoder.Decodes, Compacted, Laid, Gap, EndFrom, Encodes, LogWritten;
    SearchEnds(m);
    ghost var r := if uniform then m.TheRun() else CopyOf(m.ext.input, at);
    if uniform || begins { OneEntry(r, |m.enc.nextIn|); }
    m.enc.FinishWindow();
    srcbase, srclen := m.enc.src.srcbase, m.enc.src.srclen;
    data, inst, addr, log := m.enc.dataSect, m.enc.instSect, m.enc.addrSect, m.enc.log;
    WindowEncodes(m.enc, source);
    if uniform || begins {
      OneLiteral(source, m.enc.nextIn, srcbase, srclen, data, inst, addr, r);
    }
  }
}
