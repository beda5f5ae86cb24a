/**
 The source window of a target window: undecided until the first copy is encoded, then fixed.
 Every source copy, queued before or accepted after that moment, must lie inside it.
 */
module SourceWindow {
  import opened Bytes
  import opened CodeTable
  import opened InstructionQueue

  class SrcWin {
    /** The source file, if any; whether its size is known. */
    const hasSource: bool
    const source: seq<byte>
    const eofKnown: bool

    var srcbase: nat
    var srclen: nat
    var decided: bool
    var taroff: nat

    /** The range of all source matches found so far (`match_minaddr`, `match_maxaddr`). */
    var minaddr: nat
    var maxaddr: nat

    ghost predicate Valid()
      reads this
    {
      && minaddr <= maxaddr <= |source|
      && taroff == srclen
      && (!hasSource || !decided ==> srclen == 0 && srcbase == 0)
    }

    /** A source copy lies in the window, or in the range the window will be cut from. */
    ghost predicate Covered(r: RInst)
      reads this
    {
      r.typ == CPY && r.xtra != 0 ==> hasSource && InRange(r.addr, r.size)
    }

    ghost predicate InRange(addr: nat, size: nat)
      reads this
    {
      if decided then srcbase <= addr && addr + size <= srcbase + srclen
      else minaddr <= addr && addr + size <= maxaddr
    }

    constructor (src: Option<seq<byte>>, eof: bool)
      ensures Valid() && hasSource == src.Some? && source == (if src.Some? then src.value else [])
      ensures eofKnown == eof && !decided && minaddr == maxaddr == srcbase == srclen == taroff == 0
    {
      hasSource := src.Some?;
      source := if src.Some? then src.value else [];
      eofKnown, decided := eof, false;
      srcbase, srclen, taroff, minaddr, maxaddr := 0, 0, 0, 0, 0;
    }

    /** Encoding decides the window at most once, and then around all matches found so far. */
    twostate predicate Kept()
      reads this
    {
      && minaddr == old(minaddr) && maxaddr == old(maxaddr)
      && (old(decided) ==> decided && srcbase == old(srcbase) && srclen == old(srclen))
      && (!old(decided) && decided && maxaddr > 0 ==> srcbase <= minaddr && maxaddr <= srcbase + srclen)
    }

    /** How long a window is that is decided now: the range of all matches when no more can come, and
        otherwise a guess, at least that range and five quarters of the target, but not beyond the end
        of a source of known size. */
    ghost function LengthFor(avail: nat, flushing: bool): int
      reads this
    {
      var length := maxaddr - minaddr;
      if flushing then length
      else
        var guess := Max(length, avail + avail / 4);
        if eofKnown then Min(guess, |source| - minaddr) else guess
    }

    /** If the window has been decided meanwhile, this is what it is. */
    twostate predicate DecidedFor(avail: nat, flushing: bool)
      reads this
    {
      !old(decided) && decided ==>
        if flushing && maxaddr == 0 then srclen == 0 else srcbase == minaddr && srclen == LengthFor(avail, flushing)
    }

    /** Whatever was covered before the decision is covered after it. */
    twostate lemma StillCovered(r: RInst)
      requires old(Covered(r)) && Kept() && r.size > 0
      ensures Covered(r)
    {
    }

    /** xd3_srcwin_setup, with `avail` bytes of target; `flushing` when no more copies can come. */
    method Setup(avail: nat, flushing: bool)
      requires Valid() && hasSource && !decided
      modifies this`srcbase, this`srclen, this`decided, this`taroff
      ensures Valid() && decided && Kept()
      ensures srcbase + srclen <= |source| + avail + avail / 4
      ensures DecidedFor(avail, flushing)
      ensures eofKnown ==> srcbase + srclen <= |source|
    {
      decided := true;
      if !(flushing && maxaddr == 0) {
        var length := maxaddr - minaddr;
        srcbase := minaddr;
        if flushing {
          srclen := length;
        } else {
          srclen := Max(length, avail + avail / 4);
          if eofKnown {
            srclen := Min(srclen, |source| - srcbase);
          }
        }
      }
      taroff := srclen;
    }
  }
}
