/**
 What a list of instructions is written as: the reference that the encoder is proved against, and
 the proof that the decoder reads from the three sections exactly these instructions, which make
 the target window.
 */
module ReferenceEncoder {
  import opened Bytes
  import opened Integers
  import opened AddressCache
  import opened CodeTable
  import opened InstructionQueue
  import opened OverlapCopy
  import opened WindowFormat
  import opened WindowEmission

  /** The target bytes that an instruction claims are really there. */
  ghost predicate Reproduces(r: RInst, target: seq<byte>, source: seq<byte>) {
    && 0 < r.size && r.End() <= |target|
    && (r.typ == ADD || r.typ == RUN || r.typ == CPY)
    && (r.typ == RUN ==> forall k :: r.pos <= k < r.End() ==> target[k] == r.xtra)
    && (r.typ == CPY && r.xtra != 0 ==>
          r.addr + r.size <= |source| &&
          forall k :: r.pos <= k < r.End() ==> target[k] == source[k - r.pos + r.addr])
    && (r.typ == CPY && r.xtra == 0 ==>
          r.addr < r.pos &&
          forall k :: r.pos <= k < r.End() ==> target[k] == target[k - r.pos + r.addr])
  }

  lemma PartReproduces(r: RInst, o: RInst, target: seq<byte>, source: seq<byte>)
    requires PartOf(r, o) && 0 < r.size && Reproduces(o, target, source)
    ensures Reproduces(r, target, source)
  {
    if r.typ == CPY {
      forall k | r.pos <= k < r.End()
        ensures target[k] == if r.xtra != 0 then source[k - r.pos + r.addr] else target[k - r.pos + r.addr]
      {
        assert k - r.pos + r.addr == k - o.pos + o.addr;
      }
    }
  }

  // ----- the place of the source window

  /** The source window that addresses are relative to: it comes first, the target behind it. */
  datatype Place = Place(base: nat, len: nat)

  /** A copy can be expressed: from the source window, or from the target before its position. */
  predicate Within(p: Place, r: RInst) {
    r.typ == CPY ==>
      && p.len + r.pos < TWO64
      && if r.xtra != 0 then p.base <= r.addr && r.addr + r.size <= p.base + p.len && r.size > 0
         else r.addr < r.pos
  }

  /** The address of a copy in the combined window. */
  function AddressIn(p: Place, r: RInst): (a: nat)
    requires r.typ == CPY && Within(p, r)
    ensures a < p.len + r.pos
  {
    if r.xtra != 0 then r.addr - p.base else p.len + r.addr
  }

  ghost predicate AllWithin(p: Place, log: seq<RInst>) {
    forall i :: 0 <= i < |log| ==> Within(p, log[i])
  }

  /** The addresses that instructions leave in the cache, in order. */
  ghost function Addresses(p: Place, log: seq<RInst>): (a: seq<nat>)
    requires AllWithin(p, log)
    ensures forall i :: 0 <= i < |a| ==> a[i] < TWO64
  {
    if log == [] then []
    else
      var r := log[|log| - 1];
      Addresses(p, log[..|log| - 1]) + if r.typ == CPY then [AddressIn(p, r)] else []
  }

  ghost function CacheOf(p: Place, log: seq<RInst>): (c: CacheState)
    requires AllWithin(p, log)
    ensures c.Valid()
  {
    After(Addresses(p, log))
  }

  /** One instruction as it is written under cache `c`. */
  function HalfOf(p: Place, target: seq<byte>, c: CacheState, r: RInst): (h: Half)
    requires c.Valid() && Within(p, r) && r.End() <= |target| && (r.typ == ADD || r.typ == RUN || r.typ == CPY)
  {
    if r.typ == CPY then
      var (mode, code) := EncodeAddress(c, AddressIn(p, r), p.len + r.pos);
      Half(CPY + mode, r.size, AddressIn(p, r), [], code)
    else Half(r.typ, r.size, 0, Literal(target, r), [])
  }

  lemma HalfOfFields(p: Place, target: seq<byte>, c: CacheState, r: RInst)
    requires c.Valid() && Within(p, r) && r.End() <= |target| && (r.typ == ADD || r.typ == RUN || r.typ == CPY)
    ensures var h := HalfOf(p, target, c, r);
            && IsType(h.typ) && h.size == r.size && h.data == Literal(target, r)
            && (r.typ == CPY ==> h.typ >= CPY && h.target == AddressIn(p, r) &&
                                 (h.typ - CPY, h.addr) == EncodeAddress(c, AddressIn(p, r), p.len + r.pos))
            && (r.typ != CPY ==> h.typ == r.typ && h.addr == [] && h.target == 0)
  {
    hide ChooseInteger, SameHit, Encoding, DecodeAddress, CacheState.Valid;
    if r.typ == CPY {
      EncodeThenDecode(c, AddressIn(p, r), p.len + r.pos, []);
    }
  }

  /** What an instruction puts in the DATA section. */
  function Literal(target: seq<byte>, r: RInst): seq<byte>
    requires r.End() <= |target|
  {
    if r.typ == ADD then target[r.pos..r.End()] else if r.typ == RUN then [r.xtra] else []
  }

  /** An instruction that can be written and is right. */
  ghost predicate Right(p: Place, target: seq<byte>, source: seq<byte>, r: RInst) {
    Reproduces(r, target, source) && Within(p, r)
  }

  ghost predicate AllRight(p: Place, target: seq<byte>, source: seq<byte>, log: seq<RInst>) {
    forall i :: 0 <= i < |log| ==> Right(p, target, source, log[i])
  }

  lemma RightWithin(p: Place, target: seq<byte>, source: seq<byte>, log: seq<RInst>)
    requires AllRight(p, target, source, log)
    ensures AllWithin(p, log)
    ensures forall i :: 0 <= i <= |log| ==> AllWithin(p, log[..i])
  {
    forall i | 0 <= i < |log| ensures Within(p, log[i]) {
      assert Right(p, target, source, log[i]);
    }
  }

  /** All of them as they are written, each under the cache that the ones before it have left. */
  ghost function Halves(p: Place, target: seq<byte>, source: seq<byte>, log: seq<RInst>): (hs: seq<Half>)
    requires AllRight(p, target, source, log)
    ensures |hs| == |log|
  {
    seq(|log|, i requires 0 <= i < |log| => HalfAt(p, target, source, log, i))
  }

  ghost function HalfAt(p: Place, target: seq<byte>, source: seq<byte>, log: seq<RInst>, i: nat): Half
    requires AllRight(p, target, source, log) && i < |log|
  {
    assert Right(p, target, source, log[i]);
    RightWithin(p, target, source, log);
    HalfOf(p, target, CacheOf(p, log[..i]), log[i])
  }

  /** One more instruction is written behind the others. */
  lemma HalvesGrow(p: Place, target: seq<byte>, source: seq<byte>, log: seq<RInst>, r: RInst)
    requires AllRight(p, target, source, log) && Right(p, target, source, r)
    ensures AllRight(p, target, source, log + [r]) && AllWithin(p, log)
    ensures Halves(p, target, source, log + [r])
         == Halves(p, target, source, log) + [HalfOf(p, target, CacheOf(p, log), r)]
  {
    hide Right, HalfOf, CacheOf, Reproduces, Within;
    RightWithin(p, target, source, log);
    var more := log + [r];
    assert AllRight(p, target, source, more);
    forall i | 0 <= i < |log| ensures HalfAt(p, target, source, more, i) == HalfAt(p, target, source, log, i) {
      assert more[..i] == log[..i];
    }
    assert more[..|log|] == log;
  }

  lemma AddressesGrow(p: Place, log: seq<RInst>, r: RInst)
    requires AllWithin(p, log) && Within(p, r)
    ensures AllWithin(p, log + [r])
    ensures Addresses(p, log + [r]) == Addresses(p, log) + if r.typ == CPY then [AddressIn(p, r)] else []
  {
    assert (log + [r])[..|log|] == log;
  }

  /** And its address, if it is a copy, is recorded. */
  lemma CacheGrows(p: Place, log: seq<RInst>, r: RInst)
    requires AllWithin(p, log) && Within(p, r)
    ensures AllWithin(p, log + [r])
    ensures r.typ == CPY ==> CacheOf(p, log + [r]) == CacheOf(p, log).Update(AddressIn(p, r))
    ensures r.typ != CPY ==> CacheOf(p, log + [r]) == CacheOf(p, log)
  {
    hide Addresses, After, CacheState.Update, CacheState.Valid;
    AddressesGrow(p, log, r);
    if r.typ == CPY {
      var addrs := Addresses(p, log) + [AddressIn(p, r)];
      AfterUpdate(addrs);
      assert addrs[..|addrs| - 1] == Addresses(p, log);
    } else {
      assert Addresses(p, log) + [] == Addresses(p, log);
    }
  }

  /** As long as nothing is copied the place does not matter. */
  lemma {:induction false} NothingPlaced(p: Place, q: Place, target: seq<byte>, source: seq<byte>, log: seq<RInst>)
    requires AllRight(p, target, source, log) && forall i :: 0 <= i < |log| ==> log[i].typ != CPY
    ensures AllRight(q, target, source, log) && AllWithin(p, log) && AllWithin(q, log)
    ensures Addresses(p, log) == Addresses(q, log) == []
    ensures Halves(p, target, source, log) == Halves(q, target, source, log)
    decreases |log|
  {
    RightWithin(p, target, source, log);
    if log != [] {
      var front, r := log[..|log| - 1], log[|log| - 1];
      assert log == front + [r];
      NothingPlaced(p, q, target, source, front);
      assert Right(p, target, source, r);
      HalvesGrow(p, target, source, front, r);
      HalvesGrow(q, target, source, front, r);
    }
  }

  // ----- instructions that make up a target

  function EndOf(log: seq<RInst>): nat {
    if log == [] then 0 else log[|log| - 1].End()
  }

  /** From the start of the target, each begins where the one before it ends. */
  predicate Tiles(log: seq<RInst>) {
    log != [] ==> log[|log| - 1].pos == EndOf(log[..|log| - 1]) && Tiles(log[..|log| - 1])
  }

  lemma TilesGrow(log: seq<RInst>, r: RInst)
    requires Tiles(log) && r.pos == EndOf(log)
    ensures Tiles(log + [r]) && EndOf(log + [r]) == r.End()
  {
    assert (log + [r])[..|log|] == log;
  }

  lemma {:induction false} TilesAt(log: seq<RInst>, i: nat)
    requires Tiles(log) && i < |log|
    ensures EndOf(log[..i]) == log[i].pos && EndOf(log[..i + 1]) == log[i].End()
  {
    if i < |log| - 1 {
      TilesAt(log[..|log| - 1], i);
      assert log[..|log| - 1][..i] == log[..i] && log[..|log| - 1][..i + 1] == log[..i + 1];
    } else {
      assert log[..i + 1] == log;
    }
  }

  // ----- what each kind of instruction means to the decoder

  lemma AddMeans(w: Window, r: RInst, c: CacheState, target: seq<byte>)
    requires w.Valid() && c.Valid() && r.typ == ADD && Reproduces(r, target, w.source) && w.tgtlen == |target|
    ensures HalfMeans(w, Half(ADD, r.size, 0, target[r.pos..r.End()], []), c, target[..r.pos], c, target[..r.End()])
  {
    assert target[..r.pos] + target[r.pos..r.End()] == target[..r.End()];
  }

  lemma RunMeans(w: Window, r: RInst, c: CacheState, target: seq<byte>)
    requires w.Valid() && c.Valid() && r.typ == RUN && Reproduces(r, target, w.source) && w.tgtlen == |target|
    ensures HalfMeans(w, Half(RUN, r.size, 0, [r.xtra], []), c, target[..r.pos], c, target[..r.End()])
  {
    assert target[..r.pos] + Repeat(r.xtra, r.size) == target[..r.End()];
  }

  lemma CopyMeans(w: Window, p: Place, r: RInst, c: CacheState, target: seq<byte>)
    requires w.Valid() && c.Valid() && r.typ == CPY && Right(p, target, w.source, r) && w.tgtlen == |target|
    requires p == Place(w.cpyoff, w.cpylen)
    ensures HalfMeans(w, HalfOf(p, target, c, r), c, target[..r.pos], c.Update(AddressIn(p, r)), target[..r.End()])
  {
    hide EncodeAddress, DecodeAddress;
    HalfOfFields(p, target, c, r);
    if r.xtra != 0 {
      assert target[..r.pos] + w.source[r.addr..r.addr + r.size] == target[..r.End()];
    } else {
      CopyBytesContinues(target, r.pos, r.addr, r.size);
    }
  }

  function PlaceOf(w: Window): Place {
    Place(w.cpyoff, w.cpylen)
  }

  /** One instruction of the list takes the decoder over its part of the target. */
  lemma HalfOfMeans(w: Window, target: seq<byte>, log: seq<RInst>, r: RInst)
    requires w.Valid() && w.tgtlen == |target| && AllWithin(PlaceOf(w), log) && Right(PlaceOf(w), target, w.source, r)
    ensures AllWithin(PlaceOf(w), log + [r])
    ensures HalfMeans(w, HalfOf(PlaceOf(w), target, CacheOf(PlaceOf(w), log), r), CacheOf(PlaceOf(w), log),
                      target[..r.pos], CacheOf(PlaceOf(w), log + [r]), target[..r.End()])
  {
    hide HalfMeans, CacheOf, CacheState.Update, CacheState.Valid;
    CacheGrows(PlaceOf(w), log, r);
    var c := CacheOf(PlaceOf(w), log);
    if r.typ == CPY {
      CopyMeans(w, PlaceOf(w), r, c, target);
    } else if r.typ == RUN {
      RunMeans(w, r, c, target);
    } else {
      AddMeans(w, r, c, target);
    }
  }

  ghost function Caches(p: Place, log: seq<RInst>): (cs: seq<CacheState>)
    requires AllWithin(p, log)
    ensures |cs| == |log| + 1
  {
    seq(|log| + 1, i requires 0 <= i <= |log| => CacheOf(p, log[..i]))
  }

  function Outputs(target: seq<byte>, log: seq<RInst>): (outs: seq<seq<byte>>)
    ensures |outs| == |log| + 1
  {
    seq(|log| + 1, i requires 0 <= i <= |log| => target[..Min(EndOf(log[..i]), |target|)])
  }

  lemma LogLinked(w: Window, target: seq<byte>, log: seq<RInst>)
    requires w.Valid() && w.tgtlen == |target| && AllRight(PlaceOf(w), target, w.source, log) && Tiles(log)
    ensures AllWithin(PlaceOf(w), log)
    ensures Linked(w, Halves(PlaceOf(w), target, w.source, log), Caches(PlaceOf(w), log), Outputs(target, log))
  {
    hide HalfMeans, HalfOf, CacheOf;
    var p := PlaceOf(w);
    RightWithin(p, target, w.source, log);
    var hs, cs, outs := Halves(p, target, w.source, log), Caches(p, log), Outputs(target, log);
    forall i | 0 <= i < |log| ensures Link(w, hs, cs, outs, i) {
      assert Right(p, target, w.source, log[i]);
      TilesAt(log, i);
      HalfOfMeans(w, target, log[..i], log[i]);
      assert log[..i] + [log[i]] == log[..i + 1];
    }
  }

  // ----- the sections

  /** The three sections of a window. */
  datatype Written = Written(data: seq<byte>, inst: seq<byte>, addr: seq<byte>)

  /** What a list of instructions is written as. */
  ghost function Write(p: Place, target: seq<byte>, source: seq<byte>, log: seq<RInst>): Written
    requires AllRight(p, target, source, log)
  {
    var hs := Halves(p, target, source, log);
    HalvesTyped(p, target, source, log);
    Written(DataOf(hs), Opcodes(hs), AddrOf(hs))
  }

  lemma HalvesTyped(p: Place, target: seq<byte>, source: seq<byte>, log: seq<RInst>)
    requires AllRight(p, target, source, log)
    ensures AllTyped(Halves(p, target, source, log))
  {
    hide HalfOf, CacheOf;
    RightWithin(p, target, source, log);
    forall i | 0 <= i < |log| ensures IsType(HalfAt(p, target, source, log, i).typ) {
      assert Right(p, target, source, log[i]);
      HalfOfFields(p, target, CacheOf(p, log[..i]), log[i]);
    }
  }

  /** An instruction as the decoder parses it, and as it was put in the list. */
  ghost predicate Stands(p: Place, h: HInst, r: RInst) {
    h.size == r.size && if r.typ == CPY then Within(p, r) && h.typ >= CPY
      && h.addr == AddressIn(p, r) else h.typ == r.typ
  }

  ghost predicate AllStand(p: Place, steps: seq<HInst>, log: seq<RInst>) {
    |steps| == |log| && forall i :: 0 <= i < |log| ==> Stands(p, steps[i], log[i])
  }

  lemma TargetsStand(p: Place, target: seq<byte>, source: seq<byte>, log: seq<RInst>)
    requires AllRight(p, target, source, log)
    ensures AllStand(p, Targets(Halves(p, target, source, log)), log)
  {
    hide HalfOf, CacheOf;
    RightWithin(p, target, source, log);
    forall i | 0 <= i < |log| ensures Stands(p, Target(HalfAt(p, target, source, log, i)), log[i]) {
      assert Right(p, target, source, log[i]);
      HalfOfFields(p, target, CacheOf(p, log[..i]), log[i]);
    }
  }

  /** A list of right instructions that make up the target, once written, is decoded to the target, and
      the instructions that the decoder parses are those of the list, none of them empty. */
  lemma WrittenDecodes(w: Window, target: seq<byte>, log: seq<RInst>)
    requires w.Valid() && w.tgtlen == |target| && AllRight(PlaceOf(w), target, w.source, log)
    requires Tiles(log) && EndOf(log) == |target|
    ensures var s := Write(PlaceOf(w), target, w.source, log);
            var st := StartState(w, s.data, s.inst, s.addr);
            && DecodeWindow(w, s.data, s.inst, s.addr) == Ok(target) && AllSized(w, st)
            && AllStand(PlaceOf(w), Trace(w, st), log)
  {
    hide *;
    LogLinked(w, target, log);
    LogEnds(PlaceOf(w), target, log);
    var hs := Halves(PlaceOf(w), target, w.source, log);
    SectionsYield(w, hs, Caches(PlaceOf(w), log), Outputs(target, log));
    TargetsStand(PlaceOf(w), target, w.source, log);
    YieldsWritten(w, target, hs);
    WriteIs(PlaceOf(w), target, w.source, log);
  }

  lemma LogEnds(p: Place, target: seq<byte>, log: seq<RInst>)
    requires AllWithin(p, log) && EndOf(log) == |target|
    ensures Caches(p, log)[0] == InitialCache() && Outputs(target, log)[0] == []
    ensures Outputs(target, log)[|log|] == target && |target| == |Outputs(target, log)[|log|]|
  {
    assert log[..0] == [] && log[..|log|] == log && target[..|target|] == target;
  }

  lemma WriteIs(p: Place, target: seq<byte>, source: seq<byte>, log: seq<RInst>)
    requires AllRight(p, target, source, log)
    ensures var hs := Halves(p, target, source, log);
            AllTyped(hs) && Write(p, target, source, log) == Written(DataOf(hs), Opcodes(hs), AddrOf(hs))
  {
    hide Halves;
    HalvesTyped(p, target, source, log);
  }

  lemma YieldsWritten(w: Window, target: seq<byte>, hs: seq<Half>)
    requires w.Valid() && AllTyped(hs) && Yields(w, Sections(w, hs, InitialCache(), []), target, Targets(hs))
    ensures var st := StartState(w, DataOf(hs), Opcodes(hs), AddrOf(hs));
            && DecodeWindow(w, DataOf(hs), Opcodes(hs), AddrOf(hs)) == Ok(target) && AllSized(w, st)
            && Trace(w, st) == Targets(hs)
  {
    hide DecodeFrom, AllSized, Trace, Opcodes, DataOf, AddrOf, Targets, InitialCache;
  }

  /** The sections stay within a constant factor of the target: a byte of data for each byte, ten bytes
      at most of address and eleven of opcode and size for each instruction. */
  lemma WrittenBrief(p: Place, target: seq<byte>, source: seq<byte>, log: seq<RInst>)
    requires AllRight(p, target, source, log) && Tiles(log) && |target| < TWO64
    ensures var s := Write(p, target, source, log);
            |s.data| + |s.inst| + |s.addr| <= 22 * EndOf(log)
  {
    hide *;
    var hs := Halves(p, target, source, log);
    HalvesTyped(p, target, source, log);
    WriteIs(p, target, source, log);
    OperandsBrief(p, target, source, log);
    SizesFit(p, target, source, log);
    OpcodesBrief(hs);
  }

  lemma SizesFit(p: Place, target: seq<byte>, source: seq<byte>, log: seq<RInst>)
    requires AllRight(p, target, source, log) && |target| < TWO64
    ensures var hs := Halves(p, target, source, log); forall i :: 0 <= i < |hs| ==> hs[i].size < TWO64
  {
    hide HalfOf, CacheOf;
    RightWithin(p, target, source, log);
    forall i | 0 <= i < |log| ensures HalfAt(p, target, source, log, i).size < TWO64 {
      assert Right(p, target, source, log[i]);
      HalfOfFields(p, target, CacheOf(p, log[..i]), log[i]);
    }
  }

  /** A byte of data for each byte, or ten bytes at most of address. */
  lemma HalfOfBrief(p: Place, target: seq<byte>, c: CacheState, r: RInst)
    requires c.Valid() && Within(p, r) && r.End() <= |target| && (r.typ == ADD || r.typ == RUN || r.typ == CPY)
    requires r.size > 0
    ensures var h := HalfOf(p, target, c, r); |h.data| + |h.addr| <= r.size + 10
  {
    hide Encoding, ChooseInteger, SameHit, CacheState.Valid;
    HalfOfFields(p, target, c, r);
    if r.typ == CPY {
      ChooseIntegerSmallest(c, AddressIn(p, r), p.len + r.pos, 0);
      EncodingBrief(ChooseInteger(c, AddressIn(p, r), p.len + r.pos).d);
    }
  }

  lemma {:induction false} OperandsBrief(p: Place, target: seq<byte>, source: seq<byte>, log: seq<RInst>)
    requires AllRight(p, target, source, log) && Tiles(log)
    ensures var hs := Halves(p, target, source, log);
            |DataOf(hs)| + |AddrOf(hs)| <= 11 * EndOf(log) && |hs| <= EndOf(log)
    decreases |log|
  {
    hide HalfOf, CacheOf, Halves;
    RightWithin(p, target, source, log);
    if log != [] {
      var front, r := log[..|log| - 1], log[|log| - 1];
      assert log == front + [r];
      OperandsBrief(p, target, source, front);
      assert Right(p, target, source, r);
      HalvesGrow(p, target, source, front, r);
      HalfOfBrief(p, target, CacheOf(p, front), r);
      DataGrows(Halves(p, target, source, front), HalfOf(p, target, CacheOf(p, front), r));
    }
  }

  /** Nothing is written for no instructions. */
  lemma NothingWritten(p: Place, target: seq<byte>, source: seq<byte>)
    ensures AllRight(p, target, source, []) && AllWithin(p, []) && Tiles([]) && EndOf([]) == 0
    ensures CacheOf(p, []) == InitialCache() && Halves(p, target, source, []) == []
    ensures DataOf([]) == [] && AddrOf([]) == []
  {
  }

  // ----- the DATA section

  ghost predicate AllInside(target: seq<byte>, log: seq<RInst>) {
    forall i :: 0 <= i < |log| ==> log[i].End() <= |target|
  }

  /** The bytes that ADDs and RUNs put in the DATA section. */
  ghost function Literals(target: seq<byte>, log: seq<RInst>): seq<byte>
    requires AllInside(target, log)
  {
    if log == [] then [] else Literals(target, log[..|log| - 1]) + Literal(target, log[|log| - 1])
  }

  /** The DATA section is those and nothing else. */
  lemma {:induction false} DataIsLiterals(p: Place, target: seq<byte>, source: seq<byte>, log: seq<RInst>)
    requires AllRight(p, target, source, log)
    ensures AllInside(target, log) && Write(p, target, source, log).data == Literals(target, log)
    decreases |log|
  {
    hide HalfOf, CacheOf, Halves, Literal;
    RightWithin(p, target, source, log);
    HalvesTyped(p, target, source, log);
    forall i | 0 <= i < |log| ensures log[i].End() <= |target| {
      assert Right(p, target, source, log[i]);
    }
    if log != [] {
      var front, r := log[..|log| - 1], log[|log| - 1];
      assert log == front + [r];
      DataIsLiterals(p, target, source, front);
      HalvesTyped(p, target, source, front);
      assert Right(p, target, source, r);
      HalvesGrow(p, target, source, front, r);
      HalfOfFields(p, target, CacheOf(p, front), r);
      DataGrows(Halves(p, target, source, front), HalfOf(p, target, CacheOf(p, front), r));
    }
  }

  // ----- instructions and the gaps between them

  /** An ADD for the bytes from `from` to `to`, if there are any. */
  function Gap(from: nat, to: nat): seq<RInst> {
    if from < to then [RInst(ADD, 0, from, to - from, 0)] else []
  }

  function EndFrom(q: seq<RInst>, from: nat): nat {
    if q == [] then from else q[|q| - 1].End()
  }

  /** These instructions in their order, with ADDs in the gaps from `from` on and nowhere else. */
  function Laid(q: seq<RInst>, from: nat): seq<RInst> {
    if q == [] then []
    else
      var front, r := q[..|q| - 1], q[|q| - 1];
      Laid(front, from) + Gap(EndFrom(front, from), r.pos) + [r]
  }

  lemma LaidNone(q: seq<RInst>, from: nat)
    ensures q[..0] == [] && q[0..] == q && q[..|q|] == q && Laid([], from) == [] && EndFrom([], from) == from
  {
  }

  /** The next of them. */
  lemma LaidNext(q: seq<RInst>, n: nat, from: nat)
    requires n < |q|
    ensures Laid(q[..n + 1], from) == Laid(q[..n], from) + Gap(EndFrom(q[..n], from), q[n].pos) + [q[n]]
    ensures EndFrom(q[..n + 1], from) == q[n].End()
    ensures q[n..] != [] && q[n..][0] == q[n] && q[n..][1..] == q[n + 1..]
  {
    assert q[..n] + [q[n]] == q[..n + 1];
    LaidGrows(q[..n], q[n], from);
  }

  lemma LaidGrows(q: seq<RInst>, r: RInst, from: nat)
    ensures Laid(q + [r], from) == Laid(q, from) + Gap(EndFrom(q, from), r.pos) + [r]
    ensures EndFrom(q + [r], from) == r.End()
  {
    assert (q + [r])[..|q|] == q;
  }

  /** What is covered by the instructions, and the number of runs among them. */
  function Covered(q: seq<RInst>): nat {
    if q == [] then 0 else Covered(q[..|q| - 1]) + q[|q| - 1].size
  }

  function Runs(q: seq<RInst>): nat {
    if q == [] then 0 else Runs(q[..|q| - 1]) + if q[|q| - 1].typ == RUN then 1 else 0
  }

  /** They follow each other from `from` on, and none is an ADD. */
  predicate Queued(q: seq<RInst>, from: nat) {
    q != [] ==>
      var front, r := q[..|q| - 1], q[|q| - 1];
      Queued(front, from) && EndFrom(front, from) <= r.pos && (r.typ == RUN || r.typ == CPY)
  }

  /** The DATA bytes of instructions with their gaps: all bytes not covered, and one for each run. */
  lemma {:induction false} LaidLiterals(target: seq<byte>, q: seq<RInst>, from: nat, end: nat)
    requires Queued(q, from) && EndFrom(q, from) <= end <= |target|
    ensures AllInside(target, Laid(q, from) + Gap(EndFrom(q, from), end))
    ensures |Literals(target, Laid(q, from) + Gap(EndFrom(q, from), end))| + Covered(q) == end - from + Runs(q)
    decreases |q|
  {
    var gap := Gap(EndFrom(q, from), end);
    if q == [] {
      LiteralsGap(target, [], from, end);
      assert [] + gap == gap;
    } else {
      var front, r := q[..|q| - 1], q[|q| - 1];
      LaidLiterals(target, front, from, r.pos);
      var before := Laid(front, from) + Gap(EndFrom(front, from), r.pos);
      LiteralsGrow(target, before, r);
      LiteralsGap(target, before + [r], r.End(), end);
    }
  }

  lemma LiteralsGrow(target: seq<byte>, log: seq<RInst>, r: RInst)
    requires AllInside(target, log) && r.End() <= |target|
    ensures AllInside(target, log + [r]) && Literals(target, log + [r]) == Literals(target, log) + Literal(target, r)
  {
    assert (log + [r])[..|log|] == log;
  }

  lemma LiteralsGap(target: seq<byte>, log: seq<RInst>, from: nat, to: nat)
    requires AllInside(target, log) && from <= to <= |target|
    ensures AllInside(target, log + Gap(from, to))
    ensures Literals(target, log + Gap(from, to)) == Literals(target, log) + target[from..to]
  {
    if from < to {
      LiteralsGrow(target, log, RInst(ADD, 0, from, to - from, 0));
    } else {
      assert log + Gap(from, to) == log && Literals(target, log) + target[from..to] == Literals(target, log);
    }
  }
}
