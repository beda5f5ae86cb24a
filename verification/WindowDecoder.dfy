/**
 The decoder of one window, as xd3_decode_emit runs it over the three sections: opcode by opcode
 into an output buffer, returning to the caller whenever a source block is not at hand.
 */
module WindowDecoder {
  import opened Bytes
  import opened Integers
  import opened AddressCache
  import opened CodeTable
  import opened BlockSource
  import opened OverlapCopy
  import opened WindowFormat

  const IDLE := HInst(NOOP, 0, 0)

  /** The rest of a half instruction, when there is one. */
  function ExecRest(w: Window, st: DecState, h: HInst): (r: Result<DecState>)
    requires w.Valid() && (h.typ != NOOP && |st.out| + h.size <= w.tgtlen ==> Reachable(w, st.out, h))
    ensures r.Ok? ==> r.value.inst == st.inst && r.value.addr == st.addr && r.value.cache == st.cache
                      && r.value.pos == st.pos
    ensures r.Ok? && |st.out| <= w.tgtlen ==> |r.value.out| == |st.out| + Left(h) <= w.tgtlen
  {
    if h.typ == NOOP then Ok(st) else ExecHalf(w, st, h)
  }

  function Left(h: HInst): nat {
    if h.typ == NOOP then 0 else h.size
  }

  /** What parsing guarantees of a half that is still to be carried out after `n` bytes of output:
      either it overflows any buffer of `cap` bytes, or it fits the target window and copies from
      bytes that exist. */
  ghost predicate Sound(w: Window, n: nat, h: HInst, cap: nat) {
    h.typ < CPY + MODES &&
    (h.typ != NOOP ==>
      if n + h.size > w.tgtlen then n + h.size > cap
      else InSource(w, h) && (h.typ >= CPY && h.addr >= w.cpylen ==> h.addr - w.cpylen < n))
  }

  /** Both halves are sound, and the position counts everything up to their end. */
  ghost predicate Pending(w: Window, st: DecState, h1: HInst, h2: HInst, cap: nat) {
    var n := |st.out| + Left(h1);
    && st.cache.Valid() && |st.out| <= w.tgtlen <= cap
    && Sound(w, |st.out|, h1, cap)
    && (n <= w.tgtlen ==> Sound(w, n, h2, cap))
    && (n + Left(h2) <= w.tgtlen ==> st.pos == w.cpylen + n + Left(h2))
  }

  ghost predicate InSource(w: Window, h: HInst) {
    h.typ >= CPY && h.addr < w.cpylen ==> h.addr + h.size <= w.cpylen
  }

  /** The outcome of a window from the middle of an opcode on. */
  function Outcome(w: Window, st: DecState, h1: HInst, h2: HInst, ghost cap: nat): (r: Result<seq<byte>>)
    requires w.Valid() && Pending(w, st, h1, h2, cap)
  {
    match ExecRest(w, st, h1)
    case Err(e) => Err(e)
    case Ok(st1) =>
      match ExecRest(w, st1, h2)
      case Err(e) => Err(e)
      case Ok(st2) => DecodeFrom(w, st2)
  }

  lemma ParsedSound(w: Window, st: DecState, h: HInst, next: DecState, cap: nat)
    requires w.Valid() && w.cpylen + w.tgtlen + cap < TWO64 && h.typ < CPY + MODES
    requires st.pos <= w.cpylen + w.tgtlen && st.pos >= w.cpylen && Parsed(w, st, h, next)
    ensures Sound(w, st.pos - w.cpylen, h, cap)
  {
    ParsedAligned(w, st, h, next);
    if h.typ >= CPY && st.pos + h.size <= w.cpylen + w.tgtlen && h.addr < w.cpylen {
      NoWrap(h.addr + h.size);
    }
  }

  lemma ParsedPending(w: Window, st: DecState, h1: HInst, st1: DecState, h2: HInst, st2: DecState, cap: nat)
    requires w.Valid() && w.cpylen + w.tgtlen + cap < TWO64 && w.tgtlen <= cap
    requires Aligned(w, st) && Parsed(w, st, h1, st1) && h1.typ != NOOP
    requires h1.typ < CPY + MODES && h2.typ < CPY + MODES
    requires if h2.typ == NOOP then st2 == st1 else Parsed(w, st1, h2, st2)
    ensures Pending(w, st2, h1, h2, cap)
  {
    ParsedAligned(w, st, h1, st1);
    ParsedSound(w, st, h1, st1, cap);
    if h2.typ != NOOP && |st.out| + h1.size <= w.tgtlen {
      ParsedAligned(w, st1, h2, st2);
      ParsedSound(w, st1, h2, st2, cap);
    }
  }

  /** One half carried out, wholly or in part, changes nothing about what comes. */
  lemma OutputFirst(w: Window, st: DecState, h1: HInst, h2: HInst, st': DecState, h1': HInst, cap: nat)
    requires w.Valid() && Pending(w, st, h1, h2, cap) && h1.typ != NOOP
    requires st'.cache == st.cache && st'.pos == st.pos && |st'.out| + Left(h1') == |st.out| + h1.size <= w.tgtlen
    requires Sound(w, |st'.out|, h1', cap) && ExecRest(w, st', h1') == ExecHalf(w, st, h1)
    ensures Pending(w, st', h1', h2, cap)
    ensures Outcome(w, st', h1', h2, cap) == Outcome(w, st, h1, h2, cap)
  {
    hide ExecHalf, DecodeFrom;
  }

  lemma OutputSecond(w: Window, st: DecState, h1: HInst, h2: HInst, st': DecState, h2': HInst, cap: nat)
    requires w.Valid() && Pending(w, st, h1, h2, cap) && h1.typ == NOOP && h2.typ != NOOP
    requires st'.cache == st.cache && st'.pos == st.pos && |st'.out| + Left(h2') == |st.out| + h2.size <= w.tgtlen
    requires Sound(w, |st'.out|, h2', cap) && ExecRest(w, st', h2') == ExecHalf(w, st, h2)
    ensures Pending(w, st', h1, h2', cap)
    ensures Outcome(w, st', h1, h2', cap) == Outcome(w, st, h1, h2, cap)
  {
    hide ExecHalf, DecodeFrom;
  }

  /** Part of a source copy now, the rest later: the same bytes. */
  lemma SplitSourceCopy(w: Window, st: DecState, h: HInst, take: nat)
    requires w.Valid() && h.typ >= CPY && 0 < take < h.size && h.addr + h.size <= w.cpylen
    requires |st.out| + h.size <= w.tgtlen && w.cpyoff + h.addr + take <= |w.source|
    ensures var st' := st.(out := st.out + w.source[w.cpyoff + h.addr..w.cpyoff + h.addr + take]);
            var h' := h.(size := h.size - take, addr := h.addr + take);
            ExecHalf(w, st', h') == ExecHalf(w, st, h)
  {
    var off := w.cpyoff + h.addr;
    if off + h.size <= |w.source| {
      assert w.source[off..off + take] + w.source[off + take..off + h.size] == w.source[off..off + h.size];
      assert st.out + w.source[off..off + take] + w.source[off + take..off + h.size]
          == st.out + w.source[off..off + h.size];
    }
  }

  lemma WholeSourceCopy(w: Window, st: DecState, h: HInst, bytes: seq<byte>)
    requires w.Valid() && h.typ >= CPY && h.addr < w.cpylen && |st.out| + h.size <= w.tgtlen
    requires !SourceTooShort(w, w.cpyoff + h.addr, h.size) && |bytes| == h.size
    requires h.size > 0 ==> bytes == w.source[w.cpyoff + h.addr..w.cpyoff + h.addr + h.size]
    ensures ExecHalf(w, st, h) == Ok(st.(out := st.out + bytes))
  {
    if h.size == 0 {
      assert st.out + bytes == st.out;
    }
  }

  lemma ShortSourceCopy(w: Window, st: DecState, h: HInst)
    requires w.Valid() && h.typ >= CPY && h.addr < w.cpylen && |st.out| + h.size <= w.tgtlen
    requires SourceTooShort(w, w.cpyoff + h.addr, h.size)
    ensures ExecHalf(w, st, h) == Err(InvalidInput)
  {
  }

  /** The checks of a source copy against the current block: when they refuse it, the copy runs
      past the end of the file; when they pass, the bytes of this block are the file's. */
  lemma SourceCopyStep(w: Window, off: nat, size: nat)
    requires w.blksize > 0
    ensures var blk := Block(w.source, w.blksize, off / w.blksize);
            var blkoff := off % w.blksize;
            var take := if blkoff + size <= w.blksize then size else w.blksize - blkoff;
            if |blk| != w.blksize && blkoff + size > |blk| then SourceTooShort(w, off, size)
            else
              && blkoff + take <= |blk|
              && (take > 0 ==> off + take <= |w.source| && blk[blkoff..blkoff + take] == w.source[off..off + take])
              && (take == size ==> !SourceTooShort(w, off, size))
  {
    var blk := Block(w.source, w.blksize, off / w.blksize);
    var blkoff := off % w.blksize;
    BlockAt(w.source, w.blksize, off);
    if |blk| == w.blksize || blkoff + size <= |blk| {
      var take := if blkoff + size <= w.blksize then size else w.blksize - blkoff;
      if take > 0 {
        BlockSlice(w.source, w.blksize, off, take);
      }
    }
  }

  datatype Status = Finished | NeedBlock | Failed(error: Error)

  class Decoder {
    const acache: AddrCache
    const src: Source

    /** The window header: where the source window is, and how long the target is. */
    const cpyoff: nat
    const cpylen: nat
    const tgtlen: nat

    const instSect: seq<byte>
    const dataSect: seq<byte>
    const addrSect: seq<byte>
    var instPos: nat
    var dataPos: nat
    var addrPos: nat

    const nextOut: array<byte>
    var availOut: nat
    var position: nat

    var current1: HInst
    var current2: HInst

    ghost function Footprint(): set<object>
      reads this
    {
      {this, acache, acache.nearArray, acache.sameArray, src, nextOut}
    }

    ghost function Win(): Window {
      Window(src.file, src.blksize, cpyoff, cpylen, tgtlen)
    }

    ghost predicate Bounds()
      reads Footprint()
    {
      && acache.Valid() && src.Valid() && Win().Valid()
      && instPos <= |instSect| && dataPos <= |dataSect| && addrPos <= |addrSect|
      && availOut <= tgtlen <= nextOut.Length && cpylen + tgtlen + nextOut.Length < TWO64
    }

    ghost function State(): DecState
      requires Bounds()
      reads Footprint()
    {
      DecState(instSect[instPos..], dataSect[dataPos..], addrSect[addrPos..],
               acache.State(), position, nextOut[..availOut])
    }

    ghost predicate Valid()
      reads Footprint()
    {
      Bounds() && Pending(Win(), State(), current1, current2, nextOut.Length)
    }

    ghost function WhatComes(): Result<seq<byte>>
      requires Valid()
      reads Footprint()
    {
      Outcome(Win(), State(), current1, current2, nextOut.Length)
    }

    /** The block that a source copy starts in is the current one. */
    ghost predicate HasBlock(h: HInst)
      reads src`curblk, src`curblkno
    {
      h.typ >= CPY && h.addr < cpylen && src.blksize > 0 ==>
        src.curblk.Some? && src.curblkno == (cpyoff + h.addr) / src.blksize
    }

    /** The block that a source copy starts in is the one asked for. */
    ghost predicate Wanting(h: HInst)
      reads src
    {
      h.typ >= CPY && h.addr < cpylen && src.blksize > 0 && src.getblkno == (cpyoff + h.addr) / src.blksize
    }

    /** The decoder once the sections are in memory and the buffer, of at least the target's
        length, is allocated. */
    constructor (source: Source, off: nat, len: nat, tgt: nat, data: seq<byte>, inst: seq<byte>, addr: seq<byte>,
                 buffer: array<byte>)
      requires source.Valid() && tgt <= buffer.Length && len + tgt + buffer.Length < TWO64
      ensures Valid() && src == source && nextOut == buffer
      ensures Win() == Window(source.file, source.blksize, off, len, tgt)
      ensures fresh(acache) && fresh(acache.nearArray) && fresh(acache.sameArray)
      ensures WhatComes() == DecodeWindow(Win(), data, inst, addr)
    {
      acache := new AddrCache();
      src := source;
      cpyoff, cpylen, tgtlen := off, len, tgt;
      instSect, dataSect, addrSect := inst, data, addr;
      instPos, dataPos, addrPos := 0, 0, 0;
      nextOut := buffer;
      availOut, position := 0, len;
      current1, current2 := IDLE, IDLE;
      new;
      assert nextOut[..0] == [];
      assert inst[0..] == inst && data[0..] == data && addr[0..] == addr;
    }

    /** xd3_decode_parse_halfinst: the size, if the opcode does not give it, then the rest. */
    method ParseHalfInst(typ: nat, size0: nat) returns (r: Result<HInst>)
      requires Bounds() && typ < CPY + MODES
      modifies this`instPos, this`addrPos, this`position, acache, acache.nearArray, acache.sameArray
      ensures Bounds() && instPos >= old(instPos)
      ensures match ParseHalf(Win(), old(State()), typ, size0)
              case Err(e) => r == Err(e)
              case Ok((h, next)) => r == Ok(h) && State() == next
    {
      hide ParseAddress, Parsed;
      var size := size0;
      if size == 0 {
        var ok, v, used := ReadIntegerLoop(instSect[instPos..], TWO64);
        if !ok {
          return Err(InvalidInput);
        }
        assert instSect[instPos..][used..] == instSect[instPos + used..];
        instPos := instPos + used;
        size := v;
      }
      r := ParseAddressOf(typ, size);
    }

    /** The address of a copy, and the bounds checks. */
    method ParseAddressOf(typ: nat, size: nat) returns (r: Result<HInst>)
      requires Bounds() && typ < CPY + MODES
      modifies this`addrPos, this`position, acache, acache.nearArray, acache.sameArray
      ensures Bounds()
      ensures match ParseAddress(Win(), old(State()), typ, size)
              case Err(e) => r == Err(e)
              case Ok((h, next)) => r == Ok(h) && State() == next
    {
      hide DecodeAddress, Parsed;
      var addr := 0;
      if typ >= CPY {
        var ok, a, used := acache.Decode(position, typ - CPY, addrSect, addrPos);
        if !ok {
          return Err(InvalidInput);
        }
        addrPos := used;
        addr := a;
        if addr >= position {
          return Err(InvalidInput);
        }
        if addr < cpylen && (addr + size) % TWO64 > cpylen {
          return Err(InvalidInput);
        }
      }
      var next := (position + size) % TWO64;
      if next > cpylen + tgtlen {
        return Err(InvalidInput);
      }
      position := next;
      r := Ok(HInst(typ, size, addr));
    }

    /** memset into the output. */
    method WriteRun(b: byte, n: nat)
      requires Bounds() && availOut + n <= tgtlen
      modifies this`availOut, nextOut
      ensures Bounds() && availOut == old(availOut) + n
      ensures nextOut[..availOut] == old(nextOut[..availOut]) + Repeat(b, n)
    {
      forall i | availOut <= i < availOut + n {
        nextOut[i] := b;
      }
      availOut := availOut + n;
    }

    /** memcpy into the output. */
    method WriteBytes(s: seq<byte>)
      requires Bounds() && availOut + |s| <= tgtlen
      modifies this`availOut, nextOut
      ensures Bounds() && availOut == old(availOut) + |s|
      ensures nextOut[..availOut] == old(nextOut[..availOut]) + s
    {
      forall i | availOut <= i < availOut + |s| {
        nextOut[i] := s[i - availOut];
      }
      availOut := availOut + |s|;
    }

    /** The byte-by-byte copy within the output, whose ranges may overlap. */
    method CopyWithin(from: nat, n: nat)
      requires Bounds() && availOut + n <= tgtlen && from < availOut
      modifies this`availOut, nextOut
      ensures Bounds() && availOut == old(availOut) + n
      ensures nextOut[..availOut] == CopyBytes(old(nextOut[..availOut]), from, n)
    {
      var src, dst := from, availOut;
      availOut := availOut + n;
      var i := n;
      while i != 0
        invariant availOut == old(availOut) + n
        invariant 0 <= i <= n && src == from + (n - i) && dst == old(availOut) + (n - i)
        invariant CopyBytes(nextOut[..dst], src, i) == CopyBytes(old(nextOut[..availOut]), from, n)
      {
        ghost var before := nextOut[..dst];
        nextOut[dst] := nextOut[src];
        assert nextOut[..dst + 1] == before + [before[src]];
        src, dst := src + 1, dst + 1;
        i := i - 1;
      }
    }

    /** Block and offset of an address in the source window, from the precomputed start. */
    method Locate(addr: nat) returns (block: nat, blkoff: nat)
      requires src.blksize > 0
      ensures block == (cpyoff + addr) / src.blksize && blkoff == (cpyoff + addr) % src.blksize
    {
      block, blkoff := cpyoff / src.blksize, cpyoff % src.blksize;
      BlksizeAdd(src.blksize, cpyoff, addr);
      blkoff := blkoff + addr;
      var blkdiff := blkoff / src.blksize;
      block, blkoff := block + blkdiff, blkoff % src.blksize;
    }

    /** A copy from the source window, as far as the current block goes. */
    method CopyFromSource(h: HInst) returns (r: Status, h': HInst)
      requires Bounds() && CPY <= h.typ < CPY + MODES && h.addr < cpylen && h.addr + h.size <= cpylen
      requires availOut + h.size <= tgtlen
      modifies this`availOut, nextOut, src`getblkno
      ensures Bounds()
      ensures r.Failed? ==> ExecHalf(Win(), old(State()), h) == Err(r.error)
      ensures r.NeedBlock? ==> h' == h && State() == old(State()) && Wanting(h) && !HasBlock(h)
      ensures r.Finished? ==> availOut + Left(h') == old(availOut) + h.size && SomeLeft(h, h')
      ensures r.Finished? ==> ExecRest(Win(), State(), h') == ExecHalf(Win(), old(State()), h)
    {
      hide ExecHalf, SourceTooShort, Block, AddrCache.State;
      h' := h;
      var block, blkoff := Locate(h.addr);
      var ok := src.GetBlk(block);
      if !ok {
        return NeedBlock, h;
      }
      var blk := src.curblk.value;
      SourceCopyStep(Win(), cpyoff + h.addr, h.size);
      if |blk| != src.blksize && blkoff + h.size > |blk| {
        ShortSourceCopy(Win(), State(), h);
        return Failed(InvalidInput), h;
      }
      r := Finished;
      if blkoff + h.size <= src.blksize {
        ghost var st := State();
        WriteBytes(blk[blkoff..blkoff + h.size]);
        h' := IDLE;
        WholeSourceCopy(Win(), st, h, blk[blkoff..blkoff + h.size]);
      } else {
        var take := src.blksize - blkoff;
        ghost var st := State();
        WriteBytes(blk[blkoff..blkoff + take]);
        SplitSourceCopy(Win(), st, h, take);
        h' := h.(size := h.size - take, addr := h.addr + take);
      }
    }

    /** Nothing is left of an instruction, or a proper end of it. */
    ghost predicate SomeLeft(h: HInst, h': HInst) {
      h' == IDLE || (h'.typ == h.typ && 0 < h'.size < h.size && h'.addr + h'.size == h.addr + h.size)
    }

    /** xd3_decode_output_halfinst: what is left of the instruction comes back, IDLE when it is
        finished. */
    method OutputHalfInst(h: HInst) returns (r: Status, h': HInst)
      requires Bounds() && h.typ != NOOP && Sound(Win(), availOut, h, nextOut.Length)
      modifies this`availOut, this`dataPos, nextOut, src`getblkno
      ensures Bounds()
      ensures r.Failed? ==> ExecHalf(Win(), old(State()), h) == Err(r.error)
      ensures r.NeedBlock? ==> h' == h && State() == old(State()) && Wanting(h) && !HasBlock(h)
      ensures r.Finished? ==> availOut + Left(h') == old(availOut) + h.size <= tgtlen && SomeLeft(h, h')
      ensures r.Finished? ==> Sound(Win(), availOut, h', nextOut.Length)
      ensures r.Finished? ==> ExecRest(Win(), State(), h') == ExecHalf(Win(), old(State()), h)
    {
      hide CacheState.Valid, CopyBytes;
      r, h' := Finished, IDLE;
      if availOut + h.size > nextOut.Length {
        return Failed(InvalidInput), h;
      }
      if h.typ == RUN {
        if dataPos == |dataSect| {
          return Failed(InvalidInput), h;
        }
        WriteRun(dataSect[dataPos], h.size);
        dataPos := dataPos + 1;
      } else if h.typ == ADD {
        if dataPos + h.size > |dataSect| {
          return Failed(InvalidInput), h;
        }
        assert dataSect[dataPos..][..h.size] == dataSect[dataPos..dataPos + h.size];
        WriteBytes(dataSect[dataPos..dataPos + h.size]);
        dataPos := dataPos + h.size;
      } else if h.addr < cpylen {
        r, h' := CopyFromSource(h);
      } else {
        CopyWithin(h.addr - cpylen, h.size);
      }
    }

    /** xd3_decode_instruction: the opcode, then both halves parsed. */
    method DecodeInstruction() returns (r: Status)
      requires Valid() && current1.typ == NOOP && current2.typ == NOOP && instPos < |instSect|
      modifies this`instPos, this`addrPos, this`position, this`current1, this`current2,
               acache, acache.nearArray, acache.sameArray
      ensures Bounds() && !r.NeedBlock?
      ensures r.Failed? ==> old(WhatComes()) == Err(r.error)
      ensures r.Finished? ==> Valid() && WhatComes() == old(WhatComes()) && instPos > old(instPos)
    {
      hide ParseHalf, ExecHalf, CacheState.Valid, Row, Parsed, Sound;
      ghost var st := State();
      var row := Row(instSect[instPos]);
      RowIsRow(instSect[instPos]);
      hide Row, ParseHalf, Pending, ExecHalf;
      assert st.inst[0] == instSect[instPos] && st.inst[1..] == instSect[instPos + 1..];
      instPos := instPos + 1;
      ghost var st0 := State();
      var p1 := ParseHalfInst(row.type1, row.size1);
      if p1.Err? {
        return Failed(p1.error);
      }
      ghost var st1 := State();
      current1 := p1.value;
      current2 := HInst(row.type2, row.size2, 0);
      if row.type2 != NOOP {
        var p2 := ParseHalfInst(row.type2, row.size2);
        if p2.Err? {
          return Failed(p2.error);
        }
        current2 := p2.value;
      }
      ParsedPending(Win(), st0, current1, st1, current2, State(), nextOut.Length);
      r := Finished;
    }

    /** How much is left of each half, and that a half is left at all. */
    function Weight(h: HInst): nat {
      if h.typ == NOOP then 0 else h.size + 1
    }

    /** The half that is next. */
    ghost function Current(): HInst
      reads this
    {
      if current1.typ != NOOP then current1 else current2
    }

    method OutputCurrent1() returns (r: Status)
      requires Valid() && current1.typ != NOOP
      modifies this`availOut, this`dataPos, this`current1, nextOut, src`getblkno
      ensures Bounds()
      ensures r.Failed? ==> old(WhatComes()) == Err(r.error)
      ensures !r.Failed? ==> Valid() && WhatComes() == old(WhatComes())
      ensures r.NeedBlock? ==> current1 == old(current1) && Wanting(current1) && !HasBlock(current1)
      ensures r.Finished? ==> Weight(current1) < old(Weight(current1))
    {
      hide ExecHalf, Pending;
      ghost var st := State();
      SoundFirst();
      var h';
      r, h' := OutputHalfInst(current1);
      if r.Finished? {
        OutputFirst(Win(), st, current1, current2, State(), h', nextOut.Length);
        current1 := h';
      }
    }

    lemma SoundFirst()
      requires Valid()
      ensures Sound(Win(), availOut, current1, nextOut.Length)
      ensures current1.typ == NOOP ==> Sound(Win(), availOut, current2, nextOut.Length)
    {
    }

    method OutputCurrent2() returns (r: Status)
      requires Valid() && current1.typ == NOOP && current2.typ != NOOP
      modifies this`availOut, this`dataPos, this`current2, nextOut, src`getblkno
      ensures Bounds()
      ensures r.Failed? ==> old(WhatComes()) == Err(r.error)
      ensures !r.Failed? ==> Valid() && WhatComes() == old(WhatComes())
      ensures r.NeedBlock? ==> current2 == old(current2) && Wanting(current2) && !HasBlock(current2)
      ensures r.Finished? ==> Weight(current2) < old(Weight(current2))
    {
      hide ExecHalf, Pending;
      ghost var st := State();
      SoundFirst();
      var h';
      r, h' := OutputHalfInst(current2);
      if r.Finished? {
        OutputSecond(Win(), st, current1, current2, State(), h', nextOut.Length);
        current2 := h';
      }
    }

    /** xd3_decode_emit.  On NeedBlock it can be called again; what comes in the end has not
        changed, and with the block it asked for it gets further. */
    method Emit() returns (r: Status)
      requires Valid()
      modifies this, acache, acache.nearArray, acache.sameArray, nextOut, src`getblkno
      ensures Bounds()
      ensures r.Finished? ==> old(WhatComes()) == Ok(nextOut[..availOut])
      ensures r.Failed? ==> old(WhatComes()) == Err(r.error)
      ensures r.NeedBlock? ==> Valid() && WhatComes() == old(WhatComes())
      ensures r.NeedBlock? ==> Wanting(Current()) && !HasBlock(Current())
      ensures r.NeedBlock? ==> (Further(old(instPos), old(current1), old(current2))
                                || Stuck(old(instPos), old(current1), old(current2)))
    {
      hide Pending, Outcome, DecodeFrom, HasBlock, Wanting, Decoder.Weight, CacheState.Valid, Source.Valid,
           Window.Valid, Decoder.State, Left;
      while instPos != |instSect| || current1.typ != NOOP || current2.typ != NOOP
        invariant Valid() && WhatComes() == old(WhatComes())
        invariant Further(old(instPos), old(current1), old(current2))
                  || Stuck(old(instPos), old(current1), old(current2))
        decreases |instSect| - instPos, Weight(current1), Weight(current2)
      {
        ghost var i0, c1, c2 := instPos, current1, current2;
        if current1.typ == NOOP && current2.typ == NOOP {
          r := DecodeInstruction();
          if r.Failed? {
            return;
          }
        }
        while current1.typ != NOOP
          invariant Valid() && WhatComes() == old(WhatComes())
          invariant Further(i0, c1, c2) || (Stuck(i0, c1, c2) && (c1.typ != NOOP || c2.typ != NOOP))
          decreases Weight(current1)
        {
          r := OutputCurrent1();
          if !r.Finished? {
            return;
          }
        }
        while current2.typ != NOOP
          invariant Valid() && WhatComes() == old(WhatComes())
          invariant Further(i0, c1, c2) || (Stuck(i0, c1, c2) && c2.typ != NOOP)
          invariant current1.typ == NOOP
          decreases Weight(current2)
        {
          r := OutputCurrent2();
          if !r.Finished? {
            return;
          }
        }
      }
      AtEnd();
      if availOut != tgtlen {
        return Failed(InvalidInput);
      }
      if dataPos != |dataSect| {
        return Failed(InvalidInput);
      }
      if addrPos != |addrSect| {
        return Failed(InvalidInput);
      }
      r := Finished;
    }

    ghost predicate Stuck(i0: nat, c1: HInst, c2: HInst)
      reads this
    {
      instPos == i0 && current1 == c1 && current2 == c2
    }

    lemma AtEnd()
      requires Valid() && instPos == |instSect| && current1.typ == NOOP && current2.typ == NOOP
      ensures WhatComes() == if availOut == tgtlen && dataPos == |dataSect| && addrPos == |addrSect|
                             then Ok(nextOut[..availOut]) else Err(InvalidInput)
    {
    }

    /** Progress since the given position: more opcodes read, or less left of a half. */
    ghost predicate Further(i0: nat, c1: HInst, c2: HInst)
      reads this
    {
      || instPos > i0
      || (instPos == i0 && Weight(current1) < Weight(c1))
      || (instPos == i0 && Weight(current1) == Weight(c1) && Weight(current2) < Weight(c2))
    }
  }

  /** Decodes a window against a source that has to be fetched block by block: for every block
      size and every point of suspension the outcome is the one the format gives, and a window is
      finished after finitely many fetches. */
  method DecodeByBlocks(source: Source, cpyoff: nat, cpylen: nat, tgtlen: nat, data: seq<byte>, inst: seq<byte>,
                        addr: seq<byte>, buffer: array<byte>) returns (r: Result<seq<byte>>)
    requires source.Valid() && tgtlen <= buffer.Length && cpylen + tgtlen + buffer.Length < TWO64
    modifies source, buffer
    ensures r == DecodeWindow(Window(source.file, source.blksize, cpyoff, cpylen, tgtlen), data, inst, addr)
  {
    hide Outcome, Pending, DecodeFrom, DecodeWindow, Decoder.Wanting, Decoder.HasBlock, Decoder.Weight,
         CacheState.Valid, AddrCache.Valid, AddrCache.State, Decoder.State;
    var d := new Decoder(source, cpyoff, cpylen, tgtlen, data, inst, addr, buffer);
    ghost var meaning := d.WhatComes();
    var s := d.Emit();
    while s.NeedBlock?
      invariant d.src == source && d.nextOut == buffer && fresh(d) && fresh(d.acache)
      invariant fresh(d.acache.nearArray) && fresh(d.acache.sameArray)
      invariant s.NeedBlock? ==> d.Valid() && d.Wanting(d.Current()) && !d.HasBlock(d.Current())
      invariant s.NeedBlock? ==> d.WhatComes() == meaning
      invariant s.Finished? ==> d.availOut <= buffer.Length && meaning == Ok(buffer[..d.availOut])
      invariant s.Failed? ==> meaning == Err(s.error)
      invariant d.instPos <= |d.instSect|
      decreases s.NeedBlock?, |d.instSect| - d.instPos, d.Weight(d.current1), d.Weight(d.current2)
    {
      FetchAndContinue(d);
      s := d.Emit();
    }
    r := if s.Finished? then Ok(buffer[..d.availOut]) else Err(s.error);
  }

  method FetchAndContinue(d: Decoder)
    requires d.Valid() && d.Wanting(d.Current())
    modifies d.src`curblk, d.src`curblkno
    ensures d.Valid() && d.WhatComes() == old(d.WhatComes()) && d.HasBlock(d.Current())
  {
    d.src.Supply();
    assert d.State() == old(d.State());
  }
}
