/**
 Extending a match with the source file, block by block: how far the bytes agree backward and
 forward of a position, however large the blocks are and however often the search has to return
 to the caller for one.
 */
module SourceMatch {
  import opened Bytes
  import opened BlockSource

  // ----- xd3_forward_match

  /** `r` is how far two stretches of `n` bytes agree. */
  ghost predicate AgreeFor(s1: seq<byte>, s2: seq<byte>, n: nat, r: nat) {
    && r <= n <= |s1| && n <= |s2|
    && (forall k :: 0 <= k < r ==> s1[k] == s2[k])
    && (r < n ==> s1[r] != s2[r])
  }

  /** Bytes per word. */
  const WORD: nat := 4

  predicate SameWord(s1: seq<byte>, s2: seq<byte>, i: nat)
    requires WORD * i + WORD <= |s1| && WORD * i + WORD <= |s2|
  {
    s1[WORD * i..WORD * i + WORD] == s2[WORD * i..WORD * i + WORD]
  }

  /** Eight words: how many comparisons were made, and whether all held. */
  method EightWords(s1: seq<byte>, s2: seq<byte>, i0: nat) returns (i: nat, same: bool)
    requires WORD * (i0 + 8) <= |s1| && WORD * (i0 + 8) <= |s2|
    requires forall k :: 0 <= k < WORD * i0 ==> s1[k] == s2[k]
    ensures i0 < i <= i0 + 8 && (same ==> i == i0 + 8)
    ensures forall k :: 0 <= k < WORD * (if same then i else i - 1) ==> s1[k] == s2[k]
    ensures !same ==> !SameWord(s1, s2, i - 1)
  {
    i := i0;
    while i < i0 + 8
      invariant i0 <= i <= i0 + 8 && forall k :: 0 <= k < WORD * i ==> s1[k] == s2[k]
    {
      var equal := SameWord(s1, s2, i);
      i := i + 1;
      if !equal {
        return i, false;
      }
      forall k | WORD * (i - 1) <= k < WORD * i ensures s1[k] == s2[k] {
        assert s1[WORD * (i - 1)..WORD * (i - 1) + WORD][k - WORD * (i - 1)] == s1[k];
        assert s2[WORD * (i - 1)..WORD * (i - 1) + WORD][k - WORD * (i - 1)] == s2[k];
      }
    }
    same := true;
  }

  /** Comparing words first and then the bytes from the last word on finds what comparing bytes
      finds. */
  method ForwardMatch(s1: seq<byte>, s2: seq<byte>, n: nat) returns (i: nat)
    requires n <= |s1| && n <= |s2|
    ensures AgreeFor(s1, s2, n, i)
  {
    i := 0;
    var nint := n / WORD;
    if nint / 8 > 0 {
      var nint8 := nint - 8;
      var same := true;
      while i <= nint8 && same
        invariant i <= nint && (i == 0 ==> same)
        invariant forall k :: 0 <= k < WORD * (if same then i else i - 1) ==> s1[k] == s2[k]
        decreases nint - i, same
      {
        i, same := EightWords(s1, s2, i);
      }
      i := (i - 1) * WORD;
    }
    while i < n && s1[i] == s2[i]
      invariant i <= n && forall k :: 0 <= k < i ==> s1[k] == s2[k]
    {
      i := i + 1;
    }
  }

  // ----- xd3_source_extend_match, up to the match

  datatype MatchState = Target | Forward | Backward | Searching

  class Extender {
    const src: Source
    const input: seq<byte>
    var inputPosition: nat
    var state: MatchState
    var srcpos: nat
    var back: nat
    var fwd: nat
    var maxback: nat
    var maxfwd: nat
    /** The search was cut short because the source could not be sought back far enough. */
    ghost var far: bool

    constructor (src: Source, input: seq<byte>)
      requires src.Valid()
      ensures this.src == src && this.input == input && Valid() && state == Target && inputPosition == srcpos == 0
    {
      this.src, this.input := src, input;
      inputPosition, state, srcpos, back, fwd, maxback, maxfwd, far := 0, Target, 0, 0, 0, 0, 0, false;
    }

    /** The bytes around the two positions agree as far as the match has come. */
    ghost predicate Agrees()
      reads this`inputPosition, this`srcpos, this`back, this`fwd
    {
      && back <= srcpos && back <= inputPosition <= |input|
      && srcpos + fwd <= |src.file| && inputPosition + fwd <= |input|
      && (forall k :: inputPosition - back <= k < inputPosition + fwd ==>
          input[k] == src.file[k - inputPosition + srcpos])
    }

    /** What holds during a search. */
    ghost predicate Active()
      reads this, src
    {
      && src.Valid() && srcpos <= |src.file| && inputPosition <= |input|
      && back <= maxback && fwd <= maxfwd && Agrees()
      && maxback <= srcpos && maxback <= inputPosition && inputPosition + maxfwd <= |input|
      && (state == Backward ==> fwd == 0)
      && (state == Forward && !far ==> LongestBack())
    }

    ghost predicate Valid()
      reads this, src
    {
      && src.Valid() && inputPosition <= |input| && srcpos <= |src.file|
      && (state == Backward || state == Forward ==> Active())
    }

    /** It cannot be extended backward. */
    ghost predicate LongestBack()
      reads this`inputPosition, this`srcpos, this`back, this`maxback
    {
      && back <= srcpos && back <= inputPosition <= |input| && srcpos <= |src.file|
      && (back < maxback ==> back < srcpos && back < inputPosition
                             && src.file[srcpos - back - 1] != input[inputPosition - back - 1])
    }

    /** It cannot be extended forward. */
    ghost predicate LongestForward()
      reads this`inputPosition, this`srcpos, this`fwd, this`maxfwd
    {
      fwd < maxfwd && srcpos + fwd < |src.file| && inputPosition + fwd < |input| ==>
        src.file[srcpos + fwd] != input[inputPosition + fwd]
    }

    /** No search. */
    method Reset()
      requires Valid()
      modifies this`back, this`fwd, this`maxback, this`maxfwd, this`state, this`far
      ensures Valid() && back == fwd == maxback == maxfwd == 0 && state == Searching && !far
    {
      maxback, maxfwd, back, fwd, state, far := 0, 0, 0, 0, Searching, false;
    }

    /** A new search. */
    method Begin(at: nat, most: nat, mostForward: nat)
      requires Valid() && at <= |src.file| && most <= at && most <= inputPosition
               && inputPosition + mostForward <= |input|
      modifies this`srcpos, this`back, this`fwd, this`maxback, this`maxfwd, this`state, this`far
      ensures Valid() && back == fwd == 0 && maxback == most && maxfwd == mostForward && srcpos == at
      ensures state == Backward && !far
    {
      maxback, maxfwd, back, fwd, state, srcpos, far := most, mostForward, 0, 0, Backward, at, false;
    }

    /** What a suspended or finished search leaves alone. */
    twostate predicate SameSearch()
      reads this
    {
      inputPosition == old(inputPosition) && srcpos == old(srcpos) && maxback == old(maxback) && maxfwd == old(maxfwd)
    }

    /** The block cannot be had now; it is the one asked for. */
    ghost predicate Waiting()
      reads this, src
    {
      (state == Backward || state == Forward) && !(src.curblk.Some? && src.curblkno == src.getblkno)
    }

    /** Backward as far as it goes.  A source that is too far back at the very first byte ends the
        search; further on, it ends this half. */
    method ExtendBack() returns (ok: bool)
      requires Active() && state == Backward
      modifies this`back, this`state, this`far, src`getblkno, src`curblk, src`curblkno
      ensures Active() && SameSearch() && back >= old(back) && fwd == 0
      ensures ok ==> state == Forward || (state == Searching && far && back == 0)
      ensures !ok ==> state == Backward && Waiting()
      ensures old(far) ==> far
      ensures src.prompt ==> ok && far == old(far)
    {
      hide StartOf, Block, Agrees;
      var tryblk: nat, tryoff: nat := (srcpos - back) / src.blksize, (srcpos - back) % src.blksize;
      Divides(srcpos - back, src.blksize);
      while back < maxback
        invariant Active() && state == Backward && back >= old(back) && far == old(far)
        invariant tryoff <= src.blksize && srcpos - back == StartOf(tryblk, src.blksize) + tryoff
        decreases maxback - back
      {
        if tryoff == 0 {
          BlockBefore(tryblk, src.blksize);
          tryoff, tryblk := src.blksize, tryblk - 1;
        }
        var got := src.Fetch(tryblk);
        if got == TooFar {
          far, state := true, if back == 0 then Searching else Forward;
          return true;
        }
        if got == Wanted {
          return false;
        }
        BlockRest(src.file, src.blksize, tryblk, tryoff);
        var before := back;
        var differs := BackInBlock(tryblk, tryoff);
        if differs {
          state := Forward;
          return true;
        }
        tryoff := tryoff - (back - before);
      }
      state, ok := Forward, true;
    }

    /** Backward within the current block. */
    method BackInBlock(tryblk: nat, tryoff0: nat) returns (differs: bool)
      requires Active() && state == Backward && back < maxback && src.curblk.Some? && src.curblkno == tryblk
      requires 0 < tryoff0 <= src.blksize && srcpos - back == StartOf(tryblk, src.blksize) + tryoff0
               && tryoff0 <= |src.curblk.value|
      modifies this`back
      ensures Active() && back >= old(back) && back - old(back) <= tryoff0
      ensures differs ==> LongestBack()
      ensures !differs ==> back > old(back)
    {
      hide StartOf, Block;
      var tryoff: nat := tryoff0;
      var tryrem: nat := if tryoff < maxback - back then tryoff else maxback - back;
      ghost var total := tryrem;
      while tryrem != 0
        invariant Active() && state == Backward && back + tryrem == old(back) + total <= maxback
        invariant tryrem <= tryoff <= tryoff0 && tryoff + back == tryoff0 + old(back)
      {
        BlockByte(src.file, src.blksize, tryblk, tryoff - 1);
        if src.curblk.value[tryoff - 1] != input[inputPosition - back - 1] {
          return true;
        }
        tryoff, tryrem, back := tryoff - 1, tryrem - 1, back + 1;
      }
      differs := false;
    }

    /** Forward as far as it goes. */
    method ExtendForward() returns (ok: bool)
      requires Active() && state == Forward
      modifies this`fwd, this`state, this`far, src`getblkno, src`curblk, src`curblkno
      ensures Active() && SameSearch() && back == old(back) && fwd >= old(fwd)
      ensures ok ==> state == Searching && (!far ==> LongestForward())
      ensures !ok ==> state == Forward && Waiting()
      ensures old(far) ==> far
      ensures src.prompt ==> ok && far == old(far)
    {
      hide StartOf, Block, Agrees, LongestBack, LongestForward;
      var tryblk: nat, tryoff: nat := (srcpos + fwd) / src.blksize, (srcpos + fwd) % src.blksize;
      Divides(srcpos + fwd, src.blksize);
      while fwd < maxfwd
        invariant Active() && state == Forward && fwd >= old(fwd) && far == old(far)
        invariant tryoff <= src.blksize && srcpos + fwd == StartOf(tryblk, src.blksize) + tryoff
        decreases maxfwd - fwd
      {
        BlockAfter(tryblk, src.blksize);
        if tryoff == src.blksize {
          tryoff, tryblk := 0, tryblk + 1;
        }
        var got := src.Fetch(tryblk);
        if got == TooFar {
          far, state := true, Searching;
          return true;
        }
        if got == Wanted {
          return false;
        }
        var before := fwd;
        var more := ForwardInBlock(tryblk, tryoff);
        tryoff := tryoff + (fwd - before);
        if !more {
          state := Searching;
          return true;
        }
      }
      AllForward();
      state, ok := Searching, true;
    }

    lemma AllForward()
      requires fwd >= maxfwd
      ensures LongestForward()
    {
    }

    /** Forward within the current block; false when the match ends there. */
    method ForwardInBlock(tryblk: nat, tryoff: nat) returns (more: bool)
      requires Active() && state == Forward && fwd < maxfwd && src.curblk.Some? && src.curblkno == tryblk
      requires tryoff < src.blksize && srcpos + fwd == StartOf(tryblk, src.blksize) + tryoff
      modifies this`fwd
      ensures Active() && tryoff + (fwd - old(fwd)) <= src.blksize
      ensures if more then fwd > old(fwd) else fwd >= old(fwd) && LongestForward()
    {
      hide StartOf, Block;
      BlockRest(src.file, src.blksize, tryblk, tryoff);
      var onblk := |src.curblk.value|;
      var tryrem := if maxfwd - fwd < onblk - tryoff then maxfwd - fwd else onblk - tryoff;
      if tryrem == 0 {
        return false;
      }
      var matched := ForwardMatch(src.curblk.value[tryoff..], input[inputPosition + fwd..], tryrem);
      StretchAgrees(tryblk, tryoff, tryrem, matched);
      fwd := fwd + matched;
      more := tryrem == matched;
    }

    /** What agrees in the block agrees in the file. */
    lemma StretchAgrees(tryblk: nat, tryoff: nat, n: nat, r: nat)
      requires Active() && src.curblk.Some? && src.curblkno == tryblk && tryoff <= |src.curblk.value|
      requires srcpos + fwd == StartOf(tryblk, src.blksize) + tryoff && fwd + n <= maxfwd
      requires AgreeFor(src.curblk.value[tryoff..], input[inputPosition + fwd..], n, r)
      ensures srcpos + fwd + n <= |src.file|
      ensures forall k :: inputPosition + fwd <= k < inputPosition + fwd + r ==>
              input[k] == src.file[k - inputPosition + srcpos]
      ensures r < n ==> src.file[srcpos + fwd + r] != input[inputPosition + fwd + r]
    {
      hide StartOf, Block;
      var b := src.curblk.value;
      BlockBounds(src.file, src.blksize, tryblk);
      forall j | 0 <= j < n ensures b[tryoff + j] == src.file[srcpos + fwd + j] && b[tryoff..][j] == b[tryoff + j] {
        BlockByte(src.file, src.blksize, tryblk, tryoff + j);
      }
      forall k | inputPosition + fwd <= k < inputPosition + fwd + r
        ensures input[k] == src.file[k - inputPosition + srcpos]
      {
        var j := k - inputPosition - fwd;
        assert b[tryoff..][j] == input[inputPosition + fwd..][j];
      }
    }

    /** The search: false when it needs a block; called again once the block is there, it goes on.
        What it finds in the end depends on the bytes alone, unless a block was too far back; what it
        finds then is still a match. */
    method Extend() returns (ok: bool)
      requires Active() && (state == Backward || state == Forward)
      modifies this`back, this`fwd, this`state, this`far, src`getblkno, src`curblk, src`curblkno
      ensures Active() && SameSearch()
      ensures ok ==> state == Searching && (far || (LongestBack() && LongestForward()))
      ensures !ok ==> Waiting()
      ensures old(far) ==> far
      ensures src.prompt ==> ok && far == old(far)
    {
      ok := true;
      if state == Backward {
        ok := ExtendBack();
        if !ok || state == Searching {
          return;
        }
      }
      ok := ExtendForward();
    }
  }

  /** Where a block begins. */
  function StartOf(n: nat, blksize: nat): nat {
    n * blksize
  }

  lemma Divides(off: nat, blksize: nat)
    requires blksize > 0
    ensures off == StartOf(off / blksize, blksize) + off % blksize && off % blksize < blksize
  {
  }

  lemma BlockBefore(n: nat, blksize: nat)
    requires StartOf(n, blksize) > 0
    ensures n > 0 && StartOf(n - 1, blksize) + blksize == StartOf(n, blksize)
  {
  }

  lemma BlockAfter(n: nat, blksize: nat)
    ensures StartOf(n + 1, blksize) == StartOf(n, blksize) + blksize
  {
  }

  lemma BlockBounds(file: seq<byte>, blksize: nat, n: nat)
    requires blksize > 0
    ensures |Block(file, blksize, n)| <= blksize
    ensures |Block(file, blksize, n)| > 0 ==> StartOf(n, blksize) + |Block(file, blksize, n)| <= |file|
  {
  }

  lemma BlockByte(file: seq<byte>, blksize: nat, n: nat, off: nat)
    requires blksize > 0 && off < |Block(file, blksize, n)|
    ensures StartOf(n, blksize) + off < |file| && Block(file, blksize, n)[off] == file[StartOf(n, blksize) + off]
  {
  }

  /** From a place inside the file on, a block reaches its own end or that of the file. */
  lemma BlockRest(file: seq<byte>, blksize: nat, n: nat, off: nat)
    requires blksize > 0 && off <= blksize && StartOf(n, blksize) + off <= |file|
    ensures off <= |Block(file, blksize, n)| <= blksize
    ensures |Block(file, blksize, n)| < blksize ==> StartOf(n, blksize) + |Block(file, blksize, n)| == |file|
  {
  }
}
