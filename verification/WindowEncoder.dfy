/**
 The encoder of one window: instructions leave the queue, gaps become ADDs, each instruction is
 held back one turn (`iout`) in case it can share an opcode with the next.
 */
module WindowEncoder {
  import opened Bytes
  import opened Integers
  import opened AddressCache
  import opened CodeTable
  import opened InstructionQueue
  import opened WindowFormat
  import opened WindowEmission
  import opened ReferenceEncoder
  import opened SourceWindow

  /** An instruction held back, with the opcodes chosen for it. */
  datatype Held = Held(inst: RInst, code1: byte, code2: byte)

  /** What has been written so far. */
  datatype Progress = Progress(unencoded: nat, data: seq<byte>, inst: seq<byte>, addr: seq<byte>, cache: CacheState,
                               iout: Option<Held>, log: seq<RInst>)

  /** The instruction held back, if any, is the last of these. */
  predicate HoldsLast(iout: Option<Held>, hs: seq<Half>) {
    match iout
    case None => true
    case Some(held) =>
      && hs != [] && IsType(hs[|hs| - 1].typ) && held.inst.typ == hs[|hs| - 1].typ
      && held.inst.size == hs[|hs| - 1].size < TWO64
      && held.code1 == SingleCode(held.inst.typ, held.inst.size) && held.code2 == 0
  }

  function Holding(iout: Option<Held>, hs: seq<Half>): seq<Half>
    requires HoldsLast(iout, hs)
  {
    if iout.Some? then [hs[|hs| - 1]] else []
  }

  class Encoder {
    const acache: AddrCache
    const queue: IoptQueue
    const src: SrcWin

    /** The target window (`next_in`, `avail_in`). */
    const nextIn: seq<byte>
    /** Set once no more copies can be issued (ENC_INSTR). */
    var flushing: bool

    var dataSect: seq<byte>
    var instSect: seq<byte>
    var addrSect: seq<byte>

    var unencoded: nat
    var iout: Option<Held>
    const ioptSize: nat

    /** The instructions encoded so far, ADDs included. */
    ghost var log: seq<RInst>

    ghost function Footprint(): set<object>
      reads this
    {
      {this, acache, acache.nearArray, acache.sameArray, queue, src}
    }

    /** The source window, as far as it is decided. */
    ghost function Where(): Place
      reads src`srcbase, src`srclen
    {
      Place(src.srcbase, src.srclen)
    }

    ghost function State(): Progress
      reads this, acache, acache.nearArray, acache.sameArray
    {
      Progress(unencoded, dataSect, instSect, addrSect, acache.State(), iout, log)
    }

    ghost predicate Fits(r: RInst)
      reads this, src
    {
      Reproduces(r, nextIn, src.source) && src.Covered(r)
    }

    /** The instructions encoded are right, make up the target as far as it is encoded, and copy nothing
        while the source window is open. */
    ghost predicate Logged()
      reads this`log, this`unencoded, src`srcbase, src`srclen, src`decided
    {
      && AllRight(Where(), nextIn, src.source, log) && Tiles(log) && EndOf(log) == unencoded
      && (src.hasSource && !src.decided ==> forall i :: 0 <= i < |log| ==> log[i].typ != CPY)
    }

    ghost function Encoded(): seq<Half>
      requires AllRight(Where(), nextIn, src.source, log)
      reads this`log, src`srcbase, src`srclen
    {
      Halves(Where(), nextIn, src.source, log)
    }

    /** The sections are what these instructions are written as, except for the opcode held back. */
    ghost predicate SectionsHold()
      requires AllRight(Where(), nextIn, src.source, log)
      reads this`log, this`dataSect, this`instSect, this`addrSect, this`iout, src`srcbase, src`srclen
      reads acache, acache.nearArray, acache.sameArray
    {
      RightWithin(Where(), nextIn, src.source, log);
      && acache.State() == CacheOf(Where(), log)
      && dataSect == DataOf(Encoded()) && addrSect == AddrOf(Encoded())
      && HoldsLast(iout, Encoded()) && Settled(Encoded(), instSect, Holding(iout, Encoded()))
    }

    ghost predicate InStep()
      reads this`log, this`unencoded, this`dataSect, this`instSect, this`addrSect, this`iout
      reads src`srcbase, src`srclen, src`decided, acache, acache.nearArray, acache.sameArray
    {
      Logged() && SectionsHold()
    }

    ghost predicate Valid()
      reads this, acache, acache.nearArray, acache.sameArray, src
    {
      && acache.Valid() && src.Valid()
      && |src.source| + 3 * |nextIn| < TWO64 && src.srcbase + src.srclen <= |src.source| + |nextIn| + |nextIn| / 4
      && unencoded <= |nextIn| && InStep()
    }

    /** The slots that are neither used nor free. */
    function HeldSlots(): nat
      reads this
    {
      if iout.Some? && iout.value.inst.typ != ADD then 1 else 0
    }

    function Slots(): nat
      reads this, queue
    {
      |queue.used| + queue.free + HeldSlots()
    }

    /** What encoding leaves alone. */
    twostate predicate SameWindow()
      reads this, src
    {
      flushing == old(flushing) && src.Kept() && src.DecidedFor(|nextIn|, flushing)
    }

    /** The state at the start of a window, after xd3_encode_reset and the ENC_INPUT step. */
    constructor (target: seq<byte>, source: Option<seq<byte>>, eof: bool, slots: nat)
      requires (if source.Some? then |source.value| else 0) + 3 * |target| < TWO64
      ensures Valid() && fresh(Footprint())
      ensures nextIn == target && src.hasSource == source.Some?
      ensures src.source == (if source.Some? then source.value else [])
      ensures dataSect == [] && instSect == [] && addrSect == [] && unencoded == 0 && iout == None && log == []
      ensures !src.decided && !flushing && src.minaddr == 0 && src.maxaddr == 0 && src.eofKnown == eof
      ensures queue.used == [] && ioptSize == slots && Slots() == slots
    {
      hide Settled, Tiles, EndOf, AllRight, AllWithin, CacheOf, Halves, DataOf, AddrOf, InitialCache, CacheState.Valid;
      acache := new AddrCache();
      queue := new IoptQueue(slots);
      src := new SrcWin(source, eof);
      nextIn := target;
      flushing := false;
      dataSect, instSect, addrSect := [], [], [];
      unencoded, iout := 0, None;
      ioptSize := slots;
      log := [];
      new;
      SettledNone();
      NothingWritten(Where(), nextIn, src.source);
    }

    /** An instruction that fits can be written once the source window is decided. */
    lemma FitsRight(r: RInst)
      requires src.Valid() && Fits(r) && (r.typ == CPY && src.hasSource ==> src.decided)
      requires |src.source| + 3 * |nextIn| < TWO64 && src.srcbase + src.srclen <= |src.source| + |nextIn| + |nextIn| / 4
      ensures Right(Where(), nextIn, src.source, r)
    {
    }

    /** The bytes and the address that an instruction puts in the sections, before its opcode. */
    method EmitOperands(inst: RInst) returns (typ: nat, ghost h: Half)
      requires acache.Valid() && Right(Where(), nextIn, src.source, inst) && src.Valid()
      requires inst.typ == CPY && inst.xtra != 0 ==> src.hasSource
      modifies this`dataSect, this`addrSect, acache, acache.nearArray, acache.sameArray
      ensures h == HalfOf(Where(), nextIn, old(acache.State()), inst) && typ == h.typ
      ensures dataSect == old(dataSect) + h.data && addrSect == old(addrSect) + h.addr
      ensures acache.Valid()
      ensures acache.State() == if inst.typ == CPY then old(acache.State()).Update(AddressIn(Where(), inst))
                                else old(acache.State())
    {
      hide EncodeAddress, CacheState.Valid, CacheState.Update;
      h := HalfOf(Where(), nextIn, acache.State(), inst);
      HalfOfFields(Where(), nextIn, acache.State(), inst);
      typ := inst.typ;
      if inst.typ == CPY {
        var addr: nat;
        if src.hasSource && inst.xtra != 0 {
          addr := inst.addr - src.srcbase;
        } else {
          addr := src.taroff + inst.addr;
        }
        var mode, code := acache.Encode(addr, inst.pos + src.taroff);
        addrSect := addrSect + code;
        typ := CPY + mode;
      } else if inst.typ == RUN {
        dataSect := dataSect + [inst.xtra];
      } else {
        dataSect := dataSect + nextIn[inst.pos..inst.End()];
      }
    }

    /** xd3_emit_single: the opcode, and the size when the table does not give it. */
    method EmitSingle(held: Held)
      requires IsType(held.inst.typ) && held.code1 == SingleCode(held.inst.typ, held.inst.size)
      requires held.inst.size < TWO64
      modifies this`instSect
      ensures instSect == old(instSect) + SingleBytes(held.inst.typ, held.inst.size)
    {
      var hasSize := Row(held.code1).size1 == 0;
      instSect := instSect + [held.code1];
      if hasSize {
        var size := EmitInteger(held.inst.size);
        instSect := instSect + size;
      }
    }

    /** xd3_iopt_free_nonadd: ADDs never came from the queue. */
    method FreeNonAdd(inst: RInst)
      modifies queue`free
      ensures queue.free == old(queue.free) + if inst.typ != ADD then 1 else 0
    {
      if inst.typ != ADD {
        queue.free := queue.free + 1;
      }
    }

    /** The source window must be decided before the first copy of any kind is encoded. */
    method DecideSourceWindow(inst: RInst)
      requires Valid() && Fits(inst)
      modifies src`srcbase, src`srclen, src`decided, src`taroff
      ensures Valid() && SameWindow() && Fits(inst) && State() == old(State())
      ensures inst.typ == CPY && src.hasSource ==> src.decided
      ensures inst.typ != CPY || old(src.decided) ==> src.decided == old(src.decided)
    {
      hide AddrCache.Valid, Settled, Holding, HoldsLast, CacheState.Valid, Tiles;
      if inst.typ == CPY && src.hasSource && !src.decided {
        ghost var p := Where();
        src.Setup(|nextIn|, flushing);
        assert State() == old(State());
        NothingPlaced(p, Where(), nextIn, src.source, log);
        CacheOfNothing(p, Where());
      }
    }

    lemma CacheOfNothing(p: Place, q: Place)
      requires AllWithin(p, log) && AllWithin(q, log) && Addresses(p, log) == Addresses(q, log)
      ensures CacheOf(p, log) == CacheOf(q, log)
    {
    }

    /** The opcodes: the held instruction pairs up with the new one, if the table has an opcode for both,
        or goes alone. */
    method Sequence(inst: RInst, ghost hs: seq<Half>, ghost h: Half)
      requires HoldsLast(iout, hs) && Settled(hs, instSect, Holding(iout, hs))
      requires IsType(h.typ) && h.typ == inst.typ && h.size == inst.size < TWO64
      modifies this`instSect, this`iout, queue`free
      ensures HoldsLast(iout, hs + [h]) && Settled(hs + [h], instSect, Holding(iout, hs + [h]))
      ensures queue.free + HeldSlots() == old(queue.free + HeldSlots()) + if inst.typ == ADD then 0 else 1
    {
      hide Settled, SingleBytes, SingleCode, DoubleCode;
      var next := Held(inst, SingleCode(inst.typ, inst.size), 0);
      if iout.Some? {
        var held := iout.value;
        ghost var g := hs[|hs| - 1];
        held := held.(code2 := DoubleCode(held.inst.typ, held.inst.size, inst.typ, inst.size));
        if held.code2 != 0 {
          PairUp(hs, instSect, g, h);
          instSect := instSect + [held.code2];
          FreeNonAdd(held.inst);
          FreeNonAdd(inst);
          iout := None;
          return;
        }
        HoldNext(hs, instSect, g, h);
        EmitSingle(held);
        FreeNonAdd(held.inst);
      } else {
        HoldFirst(hs, instSect, h);
      }
      iout := Some(next);
    }

    /** xd3_iopt_finish_encoding: the operands of this instruction, the opcode of the one held. */
    method FinishEncoding(inst: RInst)
      requires Valid() && Fits(inst) && inst.pos == unencoded
      modifies this, acache, acache.nearArray, acache.sameArray, src, queue`free
      ensures Valid() && SameWindow() && unencoded == inst.End()
      ensures queue.free + HeldSlots() == old(queue.free + HeldSlots()) + if inst.typ == ADD then 0 else 1
      ensures log == old(log) + [inst]
    {
      hide InStep, Right, AddrCache.Valid, Settled, HoldsLast, Holding, AllRight, AllWithin, Within, Tiles, EndOf,
           CacheOf,
           HalfOf, Halves, DataOf, AddrOf, IsType, CacheState.Valid, CacheState.Update, AddressIn;
      DecideSourceWindow(inst);
      FitsRight(inst);
      var typ;
      ghost var h;
      Followed(inst);
      ghost var hs := Encoded();
      typ, h := EmitOperands(inst);
      unencoded := unencoded + inst.size;
      Sequence(inst.(typ := typ), hs, h);
      log := log + [inst];
      StaysInStep(hs + [h]);
    }

    lemma StaysInStep(hs: seq<Half>)
      requires AllRight(Where(), nextIn, src.source, log) && Tiles(log) && EndOf(log) == unencoded
      requires src.hasSource && !src.decided ==> forall i :: 0 <= i < |log| ==> log[i].typ != CPY
      requires hs == Halves(Where(), nextIn, src.source, log) && AllWithin(Where(), log)
      requires acache.State() == CacheOf(Where(), log) && dataSect == DataOf(hs) && addrSect == AddrOf(hs)
      requires HoldsLast(iout, hs) && Settled(hs, instSect, Holding(iout, hs))
      ensures InStep()
    {
      hide Tiles, EndOf, CacheOf, Halves, DataOf, AddrOf, HoldsLast, Settled, Holding;
    }

    /** What the list of instructions, and what is written for them, is with one more. */
    lemma Followed(inst: RInst)
      requires acache.Valid() && InStep() && Right(Where(), nextIn, src.source, inst) && inst.pos == unencoded
      requires src.Valid() && (inst.typ == CPY && src.hasSource ==> src.decided) && |nextIn| < TWO64
      ensures AllRight(Where(), nextIn, src.source, log) && AllRight(Where(), nextIn, src.source, log + [inst])
      ensures AllWithin(Where(), log) && AllWithin(Where(), log + [inst])
      ensures Within(Where(), inst) && inst.End() <= |nextIn|
      ensures inst.typ == ADD || inst.typ == RUN || inst.typ == CPY
      ensures Tiles(log + [inst]) && EndOf(log + [inst]) == inst.End()
      ensures src.hasSource && !src.decided ==> forall i :: 0 <= i <= |log| ==> (log + [inst])[i].typ != CPY
      ensures HoldsLast(iout, Encoded()) && Settled(Encoded(), instSect, Holding(iout, Encoded()))
      ensures acache.State().Valid()
      ensures var h := HalfOf(Where(), nextIn, acache.State(), inst);
              && IsType(h.typ) && h.size == inst.size < TWO64 && (h.typ == ADD <==> inst.typ == ADD)
              && Halves(Where(), nextIn, src.source, log + [inst]) == Encoded() + [h]
              && DataOf(Encoded() + [h]) == dataSect + h.data && AddrOf(Encoded() + [h]) == addrSect + h.addr
      ensures CacheOf(Where(), log + [inst]) == if inst.typ == CPY then acache.State().Update(AddressIn(Where(), inst))
                                                else acache.State()
    {
      hide Settled, Tiles, CacheOf, HalfOf, Addresses, Halves, CacheState.Valid, CacheState.Update, DataOf, AddrOf,
           EndOf, HoldsLast, Holding;
      RightWithin(Where(), nextIn, src.source, log);
      HalvesGrow(Where(), nextIn, src.source, log, inst);
      CacheGrows(Where(), log, inst);
      TilesGrow(log, inst);
      HalfOfFields(Where(), nextIn, CacheOf(Where(), log), inst);
      DataGrows(Encoded(), HalfOf(Where(), nextIn, acache.State(), inst));
    }

    /** xd3_iopt_add: an ADD for the unmatched bytes before `pos`. */
    method IoptAdd(pos: nat)
      requires Valid() && pos <= |nextIn|
      modifies this, acache, acache.nearArray, acache.sameArray, src, queue`free
      ensures Valid() && SameWindow() && unencoded == Max(pos, old(unencoded))
      ensures queue.free + HeldSlots() == old(queue.free + HeldSlots())
      ensures log == old(log) + Gap(old(unencoded), pos)
    {
      hide InStep;
      if pos > unencoded {
        FinishEncoding(RInst(ADD, 0, unencoded, pos - unencoded, 0));
      }
    }

    /** xd3_iopt_add_encoding. */
    method AddEncoding(inst: RInst)
      requires Valid() && Fits(inst) && unencoded <= inst.pos
      modifies this, acache, acache.nearArray, acache.sameArray, src, queue`free
      ensures Valid() && SameWindow() && unencoded == inst.End()
      ensures queue.free + HeldSlots() == old(queue.free + HeldSlots()) + if inst.typ == ADD then 0 else 1
      ensures log == old(log) + Gap(old(unencoded), inst.pos) + [inst]
    {
      hide InStep;
      IoptAdd(inst.pos);
      FinishEncoding(inst);
    }

    /** The sections are those of the instructions encoded, and these make up the target. */
    ghost predicate Complete()
      reads this, src
    {
      && AllRight(Where(), nextIn, src.source, log) && Tiles(log) && EndOf(log) == |nextIn|
      && Written(dataSect, instSect, addrSect) == Write(Where(), nextIn, src.source, log)
    }

    /** xd3_iopt_add_finalize: the rest of the target becomes an ADD and the held instruction gets its
        opcode. */
    method AddFinalize()
      requires Valid()
      modifies this, acache, acache.nearArray, acache.sameArray, src, queue`free
      ensures SameWindow() && src.Valid() && unencoded == |nextIn| && iout == None && Complete()
      ensures src.srcbase + src.srclen <= |src.source| + |nextIn| + |nextIn| / 4
      ensures queue.free == old(queue.free + HeldSlots())
      ensures log == old(log) + Gap(old(unencoded), |nextIn|)
    {
      hide Settled, SingleBytes, SingleCode, CacheState.Valid, AddrCache.Valid, AllRight, Tiles, Halves, CacheOf,
           DataOf, AddrOf, Opcodes;
      IoptAdd(|nextIn|);
      ghost var hs := Encoded();
      LetGo(hs, instSect, Holding(iout, hs));
      if iout.Some? {
        EmitSingle(iout.value);
        FreeNonAdd(iout.value.inst);
        iout := None;
      }
      WriteIs(Where(), nextIn, src.source, log);
    }

    // ----- the queue

    /** The entries are correct and in order. */
    ghost predicate EntriesOk()
      reads this, queue, src
    {
      && Candidates(queue.used) && Increasing(queue.used)
      && (forall k :: 0 <= k < |queue.used| ==> Fits(queue.used[k]))
    }

    /** They are behind what is encoded as well. */
    ghost predicate QueueOk()
      reads this, queue, src
    {
      EntriesOk() && (queue.used != [] ==> unencoded <= queue.used[0].pos)
    }

    /** Parts of fitting instructions fit. */
    lemma PartsFit(q: seq<RInst>, kept: seq<RInst>, full: seq<RInst>)
      requires Selected(kept, full) && AllPartsOf(q, kept) && Candidates(q)
      requires forall k :: 0 <= k < |full| ==> Fits(full[k])
      requires full != [] ==> Increasing(full) && unencoded <= full[0].pos
      ensures forall k :: 0 <= k < |q| ==> Fits(q[k])
      ensures q != [] ==> unencoded <= q[0].pos
    {
      forall k | 0 <= k < |q| ensures Fits(q[k]) && unencoded <= q[k].pos {
        SelectedFrom(kept, full, k);
        assert PartOf(q[k], kept[k]);
        var j :| 0 <= j < |full| && full[j] == kept[k];
        assert full[0].pos <= full[j].pos;
        PartReproduces(q[k], full[j], nextIn, src.source);
      }
    }

    method PopFront() returns (r: RInst)
      requires queue.used != []
      modifies queue`used
      ensures r == old(queue.used)[0] && queue.used == old(queue.used)[1..]
    {
      r := queue.used[0];
      queue.used := queue.used[1..];
    }

    /** The first entry leaves the queue.  The rest stays in order behind it, provided it did not
        overlap the second. */
    method EncodeFront(force: bool)
      requires Valid() && QueueOk() && queue.used != []
      requires DisjointUpTo(queue.used, if force then |queue.used| else |queue.used| - 2)
      modifies this, acache, acache.nearArray, acache.sameArray, src, queue
      ensures Valid() && SameWindow() && Slots() == old(Slots())
      ensures queue.used == old(queue.used)[1..] && EntriesOk() && unencoded == old(queue.used)[0].End()
      ensures log == old(log) + Gap(old(unencoded), old(queue.used)[0].pos) + [old(queue.used)[0]]
      ensures force || old(|queue.used|) != 2 ==>
                QueueOk() && DisjointUpTo(queue.used, if force then |queue.used| else |queue.used| - 2)
      ensures old(|queue.used|) == 2 ==> (QueueOk() <==> !old(Overlaps(queue.used)))
    {
      hide InStep;
      ghost var q := queue.used;
      assert Fits(q[0]);
      var renc := PopFront();
      AddEncoding(renc);
      hide Reproduces, Valid, SourceWindow.SrcWin.Covered;
      forall k | 0 <= k < |queue.used| ensures Fits(queue.used[k]) {
        assert old(Fits(q[k + 1]));
        src.StillCovered(q[k + 1]);
      }
      assert |q| > 1 && (force || |q| != 2) ==> q[0].End() <= q[1].pos;
    }

    /** How many of `n` entries leave the queue. */
    function Leaving(n: nat, force: bool): nat {
      if force || n == 0 then n else Min(ioptSize / 2 + 1, Max(1, n - 2))
    }

    /** The second loop of xd3_iopt_flush_instructions: encode from the front, all or half. */
    method EncodeQueue(force: bool)
      requires Valid() && QueueOk()
      requires DisjointUpTo(queue.used, if force then |queue.used| else |queue.used| - 2)
      modifies this, acache, acache.nearArray, acache.sameArray, src, queue
      ensures Valid() && SameWindow() && Slots() == old(Slots())
      ensures EntriesOk() && (force ==> queue.used == [])
      ensures var q := old(queue.used); var n := Leaving(|q|, force);
              && queue.used == q[n..] && log == old(log) + Laid(q[..n], old(unencoded))
              && unencoded == EndFrom(q[..n], old(unencoded))
      ensures !force ==> (QueueOk() <==> !Overlaps(old(queue.used)))
      ensures !force && |old(queue.used)| >= 2 ==> queue.used != [] && SameLast(queue.used, old(queue.used))
      ensures !force && ioptSize >= 2 ==> |queue.used| + 2 <= Max(4, |old(queue.used)|)
    {
      hide Encoder.State, Encoder.Valid, Encoder.Fits, Increasing, Candidates, Encoder.EntriesOk, Laid, EndFrom, Gap,
           DisjointUpTo;
      LaidNone(queue.used, unencoded);
      ghost var survivors := |queue.used|;
      ghost var q, n := queue.used, 0;
      var flushed := 0;
      while queue.used != []
        invariant Valid() && SameWindow() && Slots() == old(Slots())
        invariant QueueOk() && DisjointUpTo(queue.used, if force then |queue.used| else |queue.used| - 2)
        invariant n <= |q| && queue.used == q[n..] && log == old(log) + Laid(q[..n], old(unencoded))
        invariant unencoded == EndFrom(q[..n], old(unencoded))
        invariant !force ==> flushed == n <= ioptSize / 2
        invariant !force ==> |queue.used| + flushed == survivors && (flushed == 0 || |queue.used| >= 3)
        invariant !force ==> SameLast(queue.used, old(queue.used)) && (flushed == 0 ==> queue.used == old(queue.used))
        decreases |queue.used|
      {
        LaidNext(q, n, old(unencoded));
        EncodeFront(force);
        n := n + 1;
        if !force {
          flushed := flushed + 1;
          if flushed > ioptSize / 2 {
            break;
          }
          if |queue.used| < 3 {
            break;
          }
        }
      }
    }

    /** xd3_iopt_flush_instructions.  Forced, it empties the queue.  Otherwise what it leaves behind
        is in order except exactly if the compaction leaves two entries that overlap: the first is
        encoded all the same. */
    method FlushInstructions(force: bool)
      requires Valid() && QueueOk()
      modifies this, acache, acache.nearArray, acache.sameArray, src, queue
      ensures Valid() && SameWindow() && Slots() == old(Slots())
      ensures EntriesOk() && (force ==> queue.used == [])
      ensures var q := Compacted(old(queue.used), force); var n := Leaving(|q|, force);
              && queue.used == q[n..] && log == old(log) + Laid(q[..n], old(unencoded))
              && unencoded == EndFrom(q[..n], old(unencoded))
      ensures !force ==> (QueueOk() <==> !Overlaps(Compacted(old(queue.used), false)))
      ensures !force && ioptSize >= 2 ==> |queue.used| + 2 <= Max(4, |old(queue.used)|)
      ensures !force && |old(queue.used)| >= 2 ==> queue.used != [] && SameLast(queue.used, old(queue.used))
    {
      hide Compacted, Selected, SameLast, Encoder.Valid, Encoder.State, Increasing, Overlaps, Laid, EndFrom, Leaving;
      ghost var full := queue.used;
      ghost var kept := queue.Compact(force);
      PartsFit(queue.used, kept, full);
      SelectedShorter(kept, full);
      ghost var left := queue.used;
      EncodeQueue(force);
      if !force && |full| >= 2 {
        SameLastFollows(queue.used, left, full);
      }
    }

    /** xd3_iopt_last_matched. */
    function LastMatched(): nat
      reads this, queue
    {
      if queue.used == [] then 0 else queue.used[|queue.used| - 1].End()
    }

    /** xd3_iopt_erase: a match that reaches back to `pos` replaces the entries it covers. */
    method Erase(pos: nat, size: nat)
      requires Valid() && QueueOk() && LastMatched() <= pos + size
      modifies queue
      ensures Valid() && QueueOk() && Slots() == old(Slots()) && State() == old(State())
      ensures queue.used == Uncovered(old(queue.used), pos)
      ensures queue.used != [] ==> queue.used[|queue.used| - 1].pos < pos && LastMatched() <= pos + size
      ensures forall k :: |queue.used| <= k < |old(queue.used)| ==>
                pos <= old(queue.used)[k].pos && old(queue.used)[k].End() <= pos + size
    {
      hide InStep, RInst.End, Encoder.Valid, Encoder.State, Encoder.HeldSlots, RInst.IsCandidate;
      ghost var q := queue.used;
      UncoveredMeans(q, pos, pos + size);
      while queue.used != []
        invariant queue.used <= q && Slots() == old(Slots()) && Uncovered(queue.used, pos) == Uncovered(q, pos)
        decreases |queue.used|
      {
        if queue.used[|queue.used| - 1].pos < pos {
          break;
        }
        queue.used := queue.used[..|queue.used| - 1];
        queue.free := queue.free + 1;
      }
      PrefixOk(q);
      assert State() == old(State());
    }

    /** The first entries of a sound queue are a sound queue. */
    twostate lemma PrefixOk(q: seq<RInst>)
      requires q == old(queue.used) && old(QueueOk()) && queue.used <= q
      requires unencoded == old(unencoded) && unchanged(src)
      ensures QueueOk()
    {
      forall k | 0 <= k < |queue.used| ensures Fits(queue.used[k]) {
        assert queue.used[k] == q[k] && old(Fits(q[k]));
      }
    }

    /** xd3_found_match and xd3_emit_run: take a slot, after a flush when none is free, and put the
        instruction at the back.  The queue stays sound except exactly if that flush is left with two
        entries that overlap. */
    method Enqueue(r: RInst)
      requires Valid() && QueueOk() && Slots() == ioptSize && ioptSize >= 5
      requires Fits(r) && Follows(r)
      modifies this, acache, acache.nearArray, acache.sameArray, src, queue
      ensures Valid() && SameWindow() && Slots() == ioptSize
      ensures EntriesOk() && queue.used != [] && queue.used[|queue.used| - 1] == r
      ensures QueueOk() <==> old(queue.free) > 0 || !Overlaps(Compacted(old(queue.used), false))
      ensures QueueOk() <==> unencoded <= queue.used[0].pos
      ensures old(queue.free) > 0 ==> queue.used == old(queue.used) + [r] && State() == old(State())
      ensures old(queue.free) > 0 ==> unchanged(src)
      ensures old(queue.free) == 0 ==>
                var q := Compacted(old(queue.used), false); var n := Leaving(|q|, false);
                queue.used == q[n..] + [r] && log == old(log) + Laid(q[..n], old(unencoded))
    {
      hide InStep, Laid, EndFrom, Gap, Compacted, Leaving;
      if queue.free == 0 {
        FlushInstructions(false);
        src.StillCovered(r);
      }
      Push(r);
    }

    /** A source match from `lo` to `hi` was found: the range of all matches grows. */
    method WidenRange(lo: nat, hi: nat)
      requires Valid() && QueueOk() && src.hasSource && lo < hi <= |src.source|
      modifies src`minaddr, src`maxaddr
      ensures Valid() && QueueOk() && State() == old(State())
      ensures src.minaddr == (if old(src.maxaddr) == 0 then lo else Min(old(src.minaddr), lo))
      ensures src.maxaddr == Max(old(src.maxaddr), hi)
    {
      hide InStep;
      if src.maxaddr == 0 || lo < src.minaddr {
        src.minaddr := lo;
      }
      if hi > src.maxaddr {
        src.maxaddr := hi;
      }
      forall k | 0 <= k < |queue.used| ensures Fits(queue.used[k]) {
        assert old(Fits(queue.used[k]));
      }
      assert State() == old(State());
    }

    /** The new entry may follow the queue: it starts and ends after every other. */
    ghost predicate Follows(r: RInst)
      reads this, queue
    {
      unencoded <= r.pos && Behind(r)
    }

    ghost predicate Behind(r: RInst)
      reads this, queue
    {
      r.IsCandidate() && (queue.used != [] ==> queue.used[|queue.used| - 1].pos < r.pos && LastMatched() < r.End())
    }

    method Push(r: RInst)
      requires Valid() && queue.free > 0 && Fits(r)
      modifies queue
      ensures Valid() && Slots() == old(Slots()) && State() == old(State())
      ensures queue.used == old(queue.used) + [r] && queue.free == old(queue.free) - 1
      ensures old(EntriesOk() && Behind(r)) ==> EntriesOk()
    {
      hide Encoder.Valid, Encoder.State, Encoder.Fits;
      queue.free := queue.free - 1;
      queue.used := queue.used + [r];
      if old(EntriesOk() && Behind(r)) {
        forall k | 0 <= k < |queue.used| ensures Fits(queue.used[k]) {
          assert k < |queue.used| - 1 ==> old(Fits(queue.used[k]));
        }
      }
      assert State() == old(State());
    }

    /** The ENC_INSTR step: flush everything, then close the window.  What the compaction leaves of the
        queue is encoded, in order, with ADDs in the gaps and nowhere else; the sections are what these
        instructions are written as, and the decoder parses exactly them and makes the target window. */
    method FinishWindow()
      requires Valid() && QueueOk()
      modifies this, acache, acache.nearArray, acache.sameArray, src, queue
      ensures unencoded == |nextIn| && queue.used == [] && iout == None && Complete()
      ensures queue.free == old(Slots()) && src.Valid() && src.Kept() && src.DecidedFor(|nextIn|, true)
      ensures var q := Compacted(old(queue.used), true);
              log == old(log) + Laid(q, old(unencoded)) + Gap(EndFrom(q, old(unencoded)), |nextIn|)
      ensures src.srcbase + src.srclen <= |src.source| + |nextIn| + |nextIn| / 4
      ensures forall blksize: nat | blksize > 0 :: Decodes(blksize)
    {
      hide Complete, InStep, Decodes, Laid, EndFrom, Gap, Compacted;
      LaidNone(Compacted(queue.used, true), unencoded);
      flushing := true;
      assert State() == old(State());
      FlushInstructions(true);
      AddFinalize();
      forall blksize: nat | blksize > 0 ensures Decodes(blksize) {
        CompleteDecodes(blksize);
      }
    }

    /** The window as its header describes it, with the source window that was decided, if any. */
    ghost function WindowFor(blksize: nat): Window
      reads src
    {
      Window(src.source, blksize, src.srcbase, src.srclen, |nextIn|)
    }

    /** The decoder, whatever the size of its blocks, makes the target window of the sections, and from
        their instructions, none of which is empty. */
    ghost predicate Decodes(blksize: nat)
      requires blksize > 0
      reads this, src
    {
      var w := WindowFor(blksize);
      && w.Valid() && DecodeWindow(w, dataSect, instSect, addrSect) == Ok(nextIn)
      && AllSized(w, StartState(w, dataSect, instSect, addrSect))
      && AllStand(Where(), Trace(w, StartState(w, dataSect, instSect, addrSect)), log)
    }

    lemma CompleteDecodes(blksize: nat)
      requires blksize > 0 && Complete() && |src.source| + 3 * |nextIn| < TWO64
      requires src.srcbase + src.srclen <= |src.source| + |nextIn| + |nextIn| / 4
      ensures Decodes(blksize)
    {
      hide DecodeWindow, AllSized, StartState, AllRight, Tiles, Write, Trace, AllStand, EndOf;
      WrittenDecodes(WindowFor(blksize), nextIn, log);
    }
  }
}
