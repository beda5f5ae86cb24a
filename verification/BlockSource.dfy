/**
 A source file seen one block at a time (`xd3_source` without a getblk callback): when the block
 wanted is not the current one, the library asks for it and returns to the caller.
 Shifting by `shiftby` and masking with `maskby` are division and remainder by the block size,
 which the library keeps a power of two.
 */
module BlockSource {
  import opened Bytes
  import opened Arithmetic

  /** Block `n` of a file; blocks beyond its end are empty. */
  function Block(file: seq<byte>, blksize: nat, n: nat): (b: seq<byte>) {
    var lo := Min(n * blksize, |file|);
    var hi := Min(n * blksize + blksize, |file|);
    file[lo..hi]
  }

  /** Where an offset falls: its block, its place in the block, and the byte there. */
  lemma BlockAt(file: seq<byte>, blksize: nat, off: nat)
    requires blksize > 0
    ensures off == off / blksize * blksize + off % blksize && 0 <= off % blksize < blksize
    ensures off < |file| <==> off % blksize < |Block(file, blksize, off / blksize)|
    ensures off < |file| ==> Block(file, blksize, off / blksize)[off % blksize] == file[off]
    ensures |Block(file, blksize, off / blksize)| <= blksize
    ensures |Block(file, blksize, off / blksize)| < blksize ==>
              Min(|file|, off / blksize * blksize) + |Block(file, blksize, off / blksize)| == |file|
  {
    hide Block;
    var base := off / blksize * blksize;
    Parts(off, blksize);
    BlockIs(file, blksize, off / blksize, base);
    CutAt(file, blksize, base, off % blksize);
  }

  lemma BlockIs(file: seq<byte>, blksize: nat, n: nat, base: nat)
    requires base == n * blksize
    ensures Block(file, blksize, n) == file[Min(base, |file|)..Min(base + blksize, |file|)]
  {
  }

  lemma CutAt(file: seq<byte>, blksize: nat, base: nat, r: nat)
    requires r < blksize
    ensures var b := file[Min(base, |file|)..Min(base + blksize, |file|)];
            && |b| <= blksize && (base + r < |file| <==> r < |b|) && (r < |b| ==> b[r] == file[base + r])
            && (|b| < blksize ==> Min(|file|, base) + |b| == |file|)
  {
  }

  /** A stretch that stays inside one block is that stretch of the file. */
  lemma BlockSlice(file: seq<byte>, blksize: nat, off: nat, n: nat)
    requires blksize > 0 && n > 0 && off % blksize + n <= blksize
    ensures off % blksize + n <= |Block(file, blksize, off / blksize)| ==>
              off + n <= |file| &&
              Block(file, blksize, off / blksize)[off % blksize..off % blksize + n] == file[off..off + n]
    ensures off + n <= |file| ==> off % blksize + n <= |Block(file, blksize, off / blksize)|
  {
    hide Block;
    var base := off / blksize * blksize;
    Parts(off, blksize);
    BlockIs(file, blksize, off / blksize, base);
    CutSlice(file, blksize, base, off % blksize, n);
  }

  lemma CutSlice(file: seq<byte>, blksize: nat, base: nat, r: nat, n: nat)
    requires n > 0 && r + n <= blksize
    ensures var b := file[Min(base, |file|)..Min(base + blksize, |file|)];
            && (r + n <= |b| ==> base + r + n <= |file| && b[r..r + n] == file[base + r..base + r + n])
            && (base + r + n <= |file| ==> r + n <= |b|)
  {
    if base + r + n <= |file| {
      SliceOfSlice(file, base, Min(base + blksize, |file|), r, r + n);
    }
  }

  lemma SliceOfSlice<T>(s: seq<T>, lo: nat, hi: nat, a: nat, b: nat)
    requires lo <= hi <= |s| && a <= b <= hi - lo
    ensures s[lo..hi][a..b] == s[lo + a..lo + b]
  {
    var x, y := s[lo..hi][a..b], s[lo + a..lo + b];
    forall i | 0 <= i < b - a ensures x[i] == y[i] {
      assert x[i] == s[lo..hi][a + i] == s[lo + (a + i)];
    }
  }

  /** xd3_blksize_add: moving on from a block and an offset in it. */
  lemma BlksizeAdd(blksize: nat, off: nat, add: nat)
    requires blksize > 0
    ensures (off + add) / blksize == off / blksize + (off % blksize + add) / blksize
    ensures (off + add) % blksize == (off % blksize + add) % blksize
  {
    Parts(off, blksize);
    AddParts(blksize, off, off / blksize, off % blksize, add);
  }

  /** What comes of asking for a block. */
  datatype Fetched = Here | Wanted | TooFar

  class Source {
    const file: seq<byte>
    const blksize: nat
    /** Whether there is a callback that supplies every block that is asked for. */
    const prompt: bool
    var curblk: Option<seq<byte>>
    var curblkno: nat
    var getblkno: nat

    ghost predicate Valid()
      reads this
    {
      blksize > 0 && (curblk.Some? ==> curblk.value == Block(file, blksize, curblkno))
    }

    constructor (contents: seq<byte>, size: nat, prompt: bool)
      requires size > 0
      ensures Valid() && file == contents && blksize == size && this.prompt == prompt && curblk == None
    {
      file, blksize, this.prompt := contents, size, prompt;
      curblk, curblkno, getblkno := None, 0, 0;
    }

    /** xd3_getblk: false is XD3_GETSRCBLK. */
    method GetBlk(blkno: nat) returns (ok: bool)
      requires Valid()
      modifies this`getblkno
      ensures Valid()
      ensures ok <==> curblk.Some? && curblkno == blkno
      ensures !ok ==> getblkno == blkno
    {
      ok := curblk.Some? && blkno == curblkno;
      if !ok {
        getblkno := blkno;
      }
    }

    /** xd3_getblk with a callback, which may supply the block, have the caller asked for it, or say
        that it is too far back in a source that cannot seek. */
    method Fetch(blkno: nat) returns (r: Fetched)
      requires Valid()
      modifies this`getblkno, this`curblk, this`curblkno
      ensures Valid()
      ensures r == Here <==> curblk.Some? && curblkno == blkno
      ensures old(curblk.Some? && curblkno == blkno) ==> r == Here
      ensures r != Here ==> getblkno == blkno && !prompt
    {
      var ok := GetBlk(blkno);
      var answer: Fetched := Here;
      if !prompt {
        answer := *;
      }
      if !ok && answer == Here {
        Supply();
      }
      r := if ok then Here else answer;
    }

    /** The caller's answer to XD3_GETSRCBLK. */
    method Supply()
      requires Valid()
      modifies this`curblk, this`curblkno
      ensures Valid() && curblk.Some? && curblkno == getblkno
    {
      curblkno := getblkno;
      curblk := Some(Block(file, blksize, getblkno));
    }
  }
}
