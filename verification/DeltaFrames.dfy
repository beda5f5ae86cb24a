/**
 Which bytes the decoder takes for a window, and what it makes of them: a window is handed over if
 and only if its bytes are a frame in the sense of section 4.2 of RFC 3284 whose sections decode,
 and, unless the caller waives the check, decode to the bytes that were summed.
 */
module DeltaFrames {
  import opened Bytes
  import opened Integers
  import opened Adler32
  import opened WindowFormat
  import opened StreamDecoder
  import opened DeltaFile

  /** The parts of a window in the file; numbers as the digits that were written. */
  datatype Frame = Frame(ind: byte, cpyLen: seq<byte>, cpyOff: seq<byte>,
                         encLen: seq<byte>, tgtLen: seq<byte>,
                         dataLen: seq<byte>, instLen: seq<byte>, addrLen: seq<byte>,
                         cksum: seq<byte>, data: seq<byte>, inst: seq<byte>, addr: seq<byte>)

  function SectionsThen(f: Frame, rest: seq<byte>): seq<byte> {
    f.data + (f.inst + (f.addr + rest))
  }

  function LengthsThen(f: Frame, rest: seq<byte>): seq<byte> {
    f.dataLen + (f.instLen + (f.addrLen + rest))
  }

  function SizesThen(f: Frame, rest: seq<byte>): seq<byte> {
    f.encLen + (f.tgtLen + ([0] + LengthsThen(f, rest)))
  }

  function CopyThen(f: Frame, rest: seq<byte>): seq<byte> {
    f.cpyLen + (f.cpyOff + rest)
  }

  /** The bytes of a frame with others behind them. */
  function FrameThen(f: Frame, rest: seq<byte>): seq<byte> {
    [f.ind] + CopyThen(f, SizesThen(f, f.cksum + SectionsThen(f, rest)))
  }

  function Num(digits: seq<byte>): nat {
    Integers.Value(digits)
  }

  ghost predicate Denotes(digits: seq<byte>, limit: nat) {
    Terminated(digits) && Num(digits) < limit
  }

  /** The copy window: from the source file, or none. */
  ghost predicate CopyOk(f: Frame) {
    && (if Bit0(f.ind) then Denotes(f.cpyLen, TWO64) && Denotes(f.cpyOff, XOFF_LIMIT)
        else f.cpyLen == [] && f.cpyOff == [])
    && Num(f.cpyLen) % XOFF_LIMIT + Num(f.cpyOff) < XOFF_LIMIT
  }

  ghost predicate SizesOk(f: Frame) {
    && Denotes(f.encLen, TWO64) && Denotes(f.tgtLen, TWO64)
    && Denotes(f.dataLen, TWO64) && Denotes(f.instLen, TWO64) && Denotes(f.addrLen, TWO64)
    && Num(f.tgtLen) <= HARDMAXWINSIZE && Num(f.cpyLen) + Num(f.tgtLen) < TWO64
  }

  ghost predicate LengthRight(f: Frame) {
    Num(f.encLen) == EncLength(Num(f.tgtLen), Num(f.dataLen), Num(f.instLen), Num(f.addrLen), Bit2(f.ind))
  }

  /** The sections are as long as announced. */
  ghost predicate SectionsOk(f: Frame) {
    && |f.data| + |f.inst| + |f.addr| < TWO64
    && |f.data| == Num(f.dataLen) && |f.inst| == Num(f.instLen) && |f.addr| == Num(f.addrLen)
  }

  /** Everything that the decoder checks before it decodes the sections. */
  ghost predicate FrameOk(f: Frame) {
    && f.ind < 8 && !Bit1(f.ind) && CopyOk(f) && SizesOk(f) && LengthRight(f) && SectionsOk(f)
    && |f.cksum| == if Bit2(f.ind) then 4 else 0
  }

  function FrameWindow(cfg: Config, f: Frame): Window {
    Window(if cfg.source.Some? then cfg.source.value else [], cfg.blksize, Num(f.cpyOff), Num(f.cpyLen),
           Num(f.tgtLen))
  }

  /** The sections decode to `out`, from a source that is there if it is used. */
  ghost predicate DecodesTo(cfg: Config, f: Frame, out: seq<byte>)
    requires cfg.blksize > 0 && FrameOk(f)
  {
    (Bit0(f.ind) ==> cfg.source.Some?) && DecodeWindow(FrameWindow(cfg, f), f.data, f.inst, f.addr) == Ok(out)
  }

  /** The four checksum bytes, if there are any, are those of `out`. */
  ghost predicate SumRight(f: Frame, out: seq<byte>) {
    Bit2(f.ind) ==> BigEndian(f.cksum) == Checksum(1, out)
  }

  /** Offsets in the target file still fit when this window's predecessor is counted. */
  predicate Room(s: Dec) {
    s.winstart + s.tgtlen % XOFF_LIMIT < XOFF_LIMIT
  }

  // ----- the states between the parts

  function InCopy(s: Dec, f: Frame): Dec {
    s.(phase := CpyLen, winInd := f.ind, currentWindow := s.windowCount, winstart := s.winstart + s.tgtlen,
       cpylen := 0, cpyoff := 0, cksum := [])
  }

  function InSizes(s: Dec, f: Frame): Dec {
    s.(phase := EncLen, cpylen := Num(f.cpyLen), cpyoff := Num(f.cpyOff))
  }

  function InLengths(s: Dec, f: Frame): Dec {
    s.(phase := DataLen, enclen := Num(f.encLen), tgtlen := Num(f.tgtLen), delInd := 0)
  }

  function InCheck(s: Dec, f: Frame): Dec {
    s.(phase := Cksum, data := Sect(Num(f.dataLen), []), inst := Sect(Num(f.instLen), []),
       addr := Sect(Num(f.addrLen), []))
  }

  function InSections(s: Dec, f: Frame): Dec {
    if Bit2(f.ind) then s.(phase := DataSection, cksum := f.cksum, adler := BigEndian(f.cksum))
    else s.(phase := DataSection)
  }

  function InEmit(s: Dec, f: Frame): Dec {
    s.(phase := Emit, winbytes := |f.data| + |f.inst| + |f.addr|,
       data := Sect(|f.data|, f.data), inst := Sect(|f.inst|, f.inst), addr := Sect(|f.addr|, f.addr))
  }

  /** The state in which the sections have all been read. */
  function Whole(s: Dec, f: Frame): Dec {
    InEmit(InSections(InCheck(InLengths(InSizes(InCopy(s, f), f), f), f), f), f)
  }

  function FirstEvent(s: Dec): Event {
    if s.windowCount == 0 then GotHeader else WinStart
  }

  // ----- reading a given frame

  lemma DigitsDecode(digits: seq<byte>, rest: seq<byte>, limit: nat)
    requires IsWidth(limit) && Denotes(digits, limit)
    ensures DecodeInteger(0, digits + rest, limit) == Done(Num(digits), rest)
  {
    hide DecodeInteger;
    ReadAcceptsExactlyFitting(digits, rest, limit);
    DecodeAgreesWithRead(0, digits + rest, limit);
  }

  /** What a number is decoded to in a phase that reads one. */
  predicate ReadsNumber(cfg: Config, s: Dec, limit: nat) {
    && s.part64 == s.part32 == 0
    && (Reads(cfg, s), limit) in {(Size, TWO64), (Offset, XOFF_LIMIT)}
  }

  lemma NumberStep(cfg: Config, s: Dec, input: seq<byte>, limit: nat)
    requires cfg.blksize > 0 && Sane(s) && ReadsNumber(cfg, s, limit)
    ensures IsWidth(limit)
    ensures match DecodeInteger(0, input, limit)
            case Done(v, rest) => Step(cfg, s, input) == Deliver(Act(cfg, s, Number(v)), rest)
            case More(p) => Step(cfg, s, input).Waiting?
            case Overflow => Step(cfg, s, input).Failed?
  {
    hide Act, DecodeInteger, Reads, Sane;
    assert PartSaved(s, 0, limit) == s;
  }

  lemma DigitsRead(cfg: Config, s: Dec, t: Dec, digits: seq<byte>, rest: seq<byte>, limit: nat)
    requires cfg.blksize > 0 && Sane(s) && ReadsNumber(cfg, s, limit) && Denotes(digits, limit)
    requires Act(cfg, s, Number(Num(digits))) == Go(t)
    ensures Sane(t) && Drive(cfg, s, digits + rest) == Drive(cfg, t, rest)
  {
    hide Act, Step, Reads, Denotes, Num;
    NumberStep(cfg, s, digits + rest, limit);
    DigitsDecode(digits, rest, limit);
  }

  lemma CopyRead(cfg: Config, s: Dec, f: Frame, rest: seq<byte>)
    requires cfg.blksize > 0 && Sane(s) && s.phase.CpyLen? && s.part64 == s.part32 == 0 && s.cpylen == s.cpyoff == 0
    requires CopyOk(f) && s.winInd == f.ind && !Bit1(f.ind)
    ensures Sane(InSizes(s, f)) && Drive(cfg, s, CopyThen(f, rest)) == Drive(cfg, InSizes(s, f), rest)
  {
    hide Drive, Step, EmitAct, HeaderAct, SectionAct, SizesAct, Num;
    var mid := s.(phase := CpyOff, cpylen := Num(f.cpyLen));
    if Bit0(f.ind) {
      DigitsRead(cfg, s, mid, f.cpyLen, f.cpyOff + rest, TWO64);
      DigitsRead(cfg, mid, InSizes(s, f), f.cpyOff, rest, XOFF_LIMIT);
    } else {
      ValueOfNone();
      assert CopyThen(f, rest) == rest;
      NothingRead(cfg, s, Go(mid), rest);
      NothingRead(cfg, mid, Go(InSizes(s, f)), rest);
    }
  }

  lemma ValueOfNone()
    ensures Num([]) == 0
  {
  }

  lemma SizesRead(cfg: Config, s: Dec, f: Frame, rest: seq<byte>)
    requires cfg.blksize > 0 && Sane(s) && s.phase.EncLen? && s.part64 == s.part32 == 0
    requires SizesOk(f) && s.cpylen == Num(f.cpyLen)
    requires s.data.bytes == s.inst.bytes == s.addr.bytes == []
    ensures var t := InCheck(InLengths(s, f), f);
            Sane(t) && Drive(cfg, s, SizesThen(f, rest)) == Drive(cfg, t, rest)
  {
    hide Drive, Step, EmitAct, HeaderAct, SectionAct, WindowAct, Num;
    var s1 := s.(phase := TgtLen, enclen := Num(f.encLen));
    DigitsRead(cfg, s, s1, f.encLen, f.tgtLen + ([0] + LengthsThen(f, rest)), TWO64);
    var s2 := s1.(phase := DelInd, tgtlen := Num(f.tgtLen));
    DigitsRead(cfg, s1, s2, f.tgtLen, [0] + LengthsThen(f, rest), TWO64);
    DelIndRead(cfg, s2, LengthsThen(f, rest));
    LengthsRead(cfg, InLengths(s, f), f, rest);
  }

  lemma LengthsRead(cfg: Config, s: Dec, f: Frame, rest: seq<byte>)
    requires cfg.blksize > 0 && Sane(s) && s.phase.DataLen? && s.part64 == s.part32 == 0 && SizesOk(f)
    requires s.data.bytes == s.inst.bytes == s.addr.bytes == []
    ensures Sane(InCheck(s, f)) && Drive(cfg, s, LengthsThen(f, rest)) == Drive(cfg, InCheck(s, f), rest)
  {
    hide Drive, Step, EmitAct, HeaderAct, SectionAct, WindowAct, Num;
    var s4 := s.(phase := InstLen, data := Sect(Num(f.dataLen), []));
    DigitsRead(cfg, s, s4, f.dataLen, f.instLen + (f.addrLen + rest), TWO64);
    var s5 := s4.(phase := AddrLen, inst := Sect(Num(f.instLen), []));
    DigitsRead(cfg, s4, s5, f.instLen, f.addrLen + rest, TWO64);
    DigitsRead(cfg, s5, InCheck(s, f), f.addrLen, rest, TWO64);
  }

  lemma CheckRead(cfg: Config, s: Dec, f: Frame, rest: seq<byte>)
    requires cfg.blksize > 0 && Sane(s) && s.phase.Cksum? && s.cksum == [] && s.winInd == f.ind
    requires |f.cksum| == if Bit2(f.ind) then 4 else 0
    requires s.enclen == EncLength(s.tgtlen, s.data.size, s.inst.size, s.addr.size, Bit2(f.ind))
    requires s.currentWindow == s.windowCount
    ensures Sane(InSections(s, f))
    ensures Drive(cfg, s, f.cksum + rest) == Before([FirstEvent(s)], Drive(cfg, InSections(s, f), rest))
  {
    hide Drive, Step, EmitAct, HeaderAct, SectionAct, WindowAct, EncLength, BigEndian;
    var n := Yield(FirstEvent(s), InSections(s, f));
    if Bit2(f.ind) {
      BytesRead(cfg, s, n, f.cksum, rest);
    } else {
      assert f.cksum + rest == rest;
      NothingRead(cfg, s, n, rest);
    }
  }

  lemma SectionsRead(cfg: Config, s: Dec, f: Frame, rest: seq<byte>)
    requires Emits(cfg) && Sane(s) && s.phase.DataSection? && s.winbytes == 0 && !HasTarget(s)
    requires |f.data| + |f.inst| + |f.addr| < TWO64
    requires s.data == Sect(|f.data|, []) && s.inst == Sect(|f.inst|, []) && s.addr == Sect(|f.addr|, [])
    ensures Sane(InEmit(s, f))
    ensures Drive(cfg, s, SectionsThen(f, rest)) == Drive(cfg, InEmit(s, f), rest)
  {
    hide Drive, Step, EmitAct, HeaderAct, WindowAct, SizesAct;
    var s1 := s.(phase := InstSection, winbytes := |f.data|, data := Sect(|f.data|, f.data));
    BytesRead(cfg, s, Go(s1), f.data, f.inst + (f.addr + rest));
    var s2 := s1.(phase := AddrSection, winbytes := |f.data| + |f.inst|, inst := Sect(|f.inst|, f.inst));
    BytesRead(cfg, s1, Go(s2), f.inst, f.addr + rest);
    BytesRead(cfg, s2, Go(InEmit(s, f)), f.addr, rest);
  }

  /** Up to the point where the sections are complete, every sound frame is taken. */
  lemma FrameTaken(cfg: Config, s: Dec, f: Frame, rest: seq<byte>)
    requires Emits(cfg) && Sane(s) && AtWindow(s, s.windowCount) && Room(s) && FrameOk(f)
    ensures Sane(Whole(s, f)) && Whole(s, f).phase.Emit?
    ensures Drive(cfg, s, FrameThen(f, rest)) == Before([FirstEvent(s)], Drive(cfg, Whole(s, f), rest))
  {
    hide Drive, Step, EmitAct, HeaderAct, SizesAct, SectionAct, Num, EncLength, BigEndian;
    var s1 := InCopy(s, f);
    var s2 := InSizes(s1, f);
    var s3 := InCheck(InLengths(s2, f), f);
    var s4 := InSections(s3, f);
    var r1 := f.cksum + SectionsThen(f, rest);
    ByteRead(cfg, s, f.ind, CopyThen(f, SizesThen(f, r1)));
    CopyRead(cfg, s1, f, SizesThen(f, r1));
    SizesRead(cfg, s2, f, r1);
    CheckRead(cfg, s3, f, SectionsThen(f, rest));
    SectionsRead(cfg, s4, f, rest);
  }

  lemma EmitFails(cfg: Config, s: Dec, f: Failure, rest: seq<byte>)
    requires cfg.blksize > 0 && Sane(s) && s.phase.Emit? && EmitAct(cfg, s) == Fail(f)
    ensures Drive(cfg, s, rest) == Run([], Broken(f))
  {
    hide EmitAct;
  }

  lemma BrokenAfter(first: seq<Event>, f: Failure)
    ensures Before(first, Run([], Broken(f))) == Run(first, Broken(f))
  {
    assert first + [] == first;
  }

  /** What EmitAct has to go by is the frame. */
  lemma WholeIsFrame(cfg: Config, s: Dec, f: Frame)
    requires cfg.blksize > 0 && FrameOk(f) && Sane(Whole(s, f)) && Whole(s, f).phase.Emit?
    ensures EmitAct(cfg, Whole(s, f)) ==
            if Bit0(f.ind) && cfg.source.None? then Invalid()
            else Deliverable(cfg, Whole(s, f), DecodeWindow(FrameWindow(cfg, f), f.data, f.inst, f.addr))
  {
    hide DecodeWindow, Deliverable, Num, BigEndian;
  }

  /** A sound frame whose sections decode, to the bytes that were summed or to any if the caller
      waives the check, is handed over. */
  lemma FrameRead(cfg: Config, s: Dec, f: Frame, out: seq<byte>, rest: seq<byte>) returns (t: Dec)
    requires Emits(cfg) && Sane(s) && AtWindow(s, s.windowCount) && Room(s) && FrameOk(f)
    requires DecodesTo(cfg, f, out) && (cfg.noVerify || SumRight(f, out))
    ensures Sane(t) && AtWindow(t, s.windowCount + 1)
    ensures t.winstart == s.winstart + s.tgtlen && t.tgtlen == |out|
    ensures Drive(cfg, s, FrameThen(f, rest))
            == Before([FirstEvent(s), Output(out), WinFinish], Drive(cfg, t, rest))
  {
    hide Drive, Step, EmitAct, Num, BigEndian, Checksum, StartState, DecodeFrom, FrameThen, FrameOk, Sane;
    FrameTaken(cfg, s, f, rest);
    WholeIsFrame(cfg, s, f);
    var e := Whole(s, f);
    t := Emptied(e);
    NothingRead(cfg, e, FinishWindow(e, out), rest);
    var mid := FinishWindow(e, out).s;
    NothingRead(cfg, mid, Yield(WinFinish, t), rest);
    var run := Drive(cfg, t, rest);
    assert [FirstEvent(s)] + ([Output(out)] + ([WinFinish] + run.events))
        == [FirstEvent(s), Output(out), WinFinish] + run.events;
  }

  /** If its sections decode to other bytes than those summed, the run ends there. */
  lemma MisSummedRefused(cfg: Config, s: Dec, f: Frame, out: seq<byte>, rest: seq<byte>)
    requires Emits(cfg) && Sane(s) && AtWindow(s, s.windowCount) && Room(s) && FrameOk(f)
    requires DecodesTo(cfg, f, out) && !cfg.noVerify && !SumRight(f, out)
    ensures Drive(cfg, s, FrameThen(f, rest)) == Run([FirstEvent(s)], Broken(Bad(InvalidInput)))
  {
    hide Drive, Step, EmitAct, Num, BigEndian, Checksum, DecodeWindow, Whole;
    FrameTaken(cfg, s, f, rest);
    WholeIsFrame(cfg, s, f);
    WholeSum(s, f);
    EmitFails(cfg, Whole(s, f), Bad(InvalidInput), rest);
    BrokenAfter([FirstEvent(s)], Bad(InvalidInput));
  }

  lemma WholeSum(s: Dec, f: Frame)
    ensures HasAdler(Whole(s, f)) <==> Bit2(f.ind)
    ensures Bit2(f.ind) ==> Whole(s, f).adler == BigEndian(f.cksum)
  {
    hide BigEndian, Num;
  }

  /** And if they do not decode at all, or there is no source to decode them with. */
  lemma UndecodableRefused(cfg: Config, s: Dec, f: Frame, rest: seq<byte>)
    requires Emits(cfg) && Sane(s) && AtWindow(s, s.windowCount) && Room(s) && FrameOk(f)
    requires !exists out :: DecodesTo(cfg, f, out)
    ensures exists e :: Drive(cfg, s, FrameThen(f, rest)) == Run([FirstEvent(s)], Broken(Bad(e)))
  {
    hide Drive, Step, EmitAct, Num, BigEndian, Checksum, DecodeWindow, Whole;
    FrameTaken(cfg, s, f, rest);
    WholeIsFrame(cfg, s, f);
    var decoded := DecodeWindow(FrameWindow(cfg, f), f.data, f.inst, f.addr);
    assert decoded.Ok? ==> !Bit0(f.ind) || cfg.source.Some? ==> DecodesTo(cfg, f, decoded.value);
    var e := if Bit0(f.ind) && cfg.source.None? then InvalidInput else decoded.error;
    EmitFails(cfg, Whole(s, f), Bad(e), rest);
    BrokenAfter([FirstEvent(s)], Bad(e));
  }

  // ----- and conversely: what the input must have been if statuses come

  lemma NumberTaken(cfg: Config, s: Dec, input: seq<byte>, limit: nat) returns (digits: seq<byte>, rest: seq<byte>)
    requires cfg.blksize > 0 && Sane(s) && ReadsNumber(cfg, s, limit) && Drive(cfg, s, input).events != []
    ensures input == digits + rest && Denotes(digits, limit)
    ensures var n := Act(cfg, s, Number(Num(digits)));
            !n.Fail? && Drive(cfg, s, input) == Onwards(cfg, n, rest)
  {
    hide Act, Step, Reads, Sane, DecodeInteger, ReadFrom, Accumulated, Terminated;
    NumberStep(cfg, s, input, limit);
    assert DecodeInteger(0, input, limit).Done?;
    rest := DecodeInteger(0, input, limit).rest;
    DecodeAgreesWithRead(0, input, limit);
    ReadFromConsumes(0, input, limit);
    ReadTakesOne(0, input, limit);
    digits := input[..|input| - |rest|];
    AccumulatedIsValue(digits);
  }

  lemma ByteTaken(cfg: Config, s: Dec, input: seq<byte>) returns (b: byte, rest: seq<byte>)
    requires cfg.blksize > 0 && Sane(s) && Reads(cfg, s) == OneByte && Drive(cfg, s, input).events != []
    ensures input == [b] + rest
    ensures var n := Act(cfg, s, Number(b)); !n.Fail? && Drive(cfg, s, input) == Onwards(cfg, n, rest)
  {
    hide Act, Reads, Sane;
    assert input != [];
    b, rest := input[0], input[1..];
  }

  lemma NothingTaken(cfg: Config, s: Dec, input: seq<byte>)
    requires cfg.blksize > 0 && Sane(s) && Reads(cfg, s) == Nothing && Drive(cfg, s, input).events != []
    ensures var n := Act(cfg, s, Absent); !n.Fail? && Drive(cfg, s, input) == Onwards(cfg, n, input)
  {
    hide Act, Reads, Sane;
  }

  lemma BytesTaken(cfg: Config, s: Dec, input: seq<byte>, size: nat) returns (bytes: seq<byte>, rest: seq<byte>)
    requires cfg.blksize > 0 && Sane(s) && Reads(cfg, s) == Fill([], size) && Drive(cfg, s, input).events != []
    ensures input == bytes + rest && |bytes| == size
    ensures var t := Saved(s, bytes).(winbytes := Count(s, size));
            Sane(t) && !Act(cfg, t, Filled(bytes)).Fail?
            && Drive(cfg, s, input) == Onwards(cfg, Act(cfg, t, Filled(bytes)), rest)
  {
    FillTaken(cfg, s, input, size);
    hide *;
    bytes, rest := input[..size], input[size..];
    var t := Saved(s, bytes).(winbytes := Count(s, size));
    StepTaken(cfg, s, input, Act(cfg, t, Filled(bytes)), rest);
  }

  lemma FillTaken(cfg: Config, s: Dec, input: seq<byte>, size: nat)
    requires cfg.blksize > 0 && Sane(s) && Reads(cfg, s) == Fill([], size) && Drive(cfg, s, input).events != []
    ensures |input| >= size
    ensures var t := Saved(s, input[..size]).(winbytes := Count(s, size));
            Sane(t) && Step(cfg, s, input) == Deliver(Act(cfg, t, Filled(input[..size])), input[size..])
  {
    assert !s.phase.WinInd?;
    hide Act, Reads, Saved, Count;
    SavedFills(cfg, s, [], 0);
    assert Step(cfg, s, input) == FillStep(cfg, s, [], size, input);
    assert |input| >= size;
    assert [] + input[..size] == input[..size];
  }

  lemma StepTaken(cfg: Config, s: Dec, input: seq<byte>, n: Next, rest: seq<byte>)
    requires cfg.blksize > 0 && Sane(s) && Step(cfg, s, input) == Deliver(n, rest) && (!n.Fail? ==> Sane(n.s))
    requires Drive(cfg, s, input).events != []
    ensures !n.Fail? && Drive(cfg, s, input) == Onwards(cfg, n, rest)
  {
    hide Step, Sane;
  }

  lemma CopyTaken(cfg: Config, s: Dec, input: seq<byte>) returns (f: Frame, rest: seq<byte>)
    requires cfg.blksize > 0 && Sane(s) && s.phase.CpyLen? && s.part64 == s.part32 == 0 && s.cpylen == s.cpyoff == 0
    requires !Bit1(s.winInd) && Drive(cfg, s, input).events != []
    ensures f.ind == s.winInd && CopyOk(f) && input == CopyThen(f, rest)
    ensures Sane(InSizes(s, f)) && Drive(cfg, s, input) == Drive(cfg, InSizes(s, f), rest)
  {
    hide Drive, Step, EmitAct, HeaderAct, SectionAct, SizesAct, Num;
    f := Frame(s.winInd, [], [], [], [], [], [], [], [], [], [], []);
    ValueOfNone();
    if Bit0(s.winInd) {
      var len, r1 := NumberTaken(cfg, s, input, TWO64);
      var mid := s.(phase := CpyOff, cpylen := Num(len));
      var off, r2 := NumberTaken(cfg, mid, r1, XOFF_LIMIT);
      f := f.(cpyLen := len, cpyOff := off);
      rest := r2;
    } else {
      NothingTaken(cfg, s, input);
      NothingTaken(cfg, s.(phase := CpyOff), input);
      rest := input;
    }
  }

  /** `f` with the fields that are read with the sizes taken from `g`. */
  function WithSizes(f: Frame, g: Frame): Frame {
    f.(encLen := g.encLen, tgtLen := g.tgtLen, dataLen := g.dataLen, instLen := g.instLen, addrLen := g.addrLen)
  }

  lemma LengthsTaken(cfg: Config, s: Dec, f: Frame, input: seq<byte>) returns (g: Frame, rest: seq<byte>)
    requires cfg.blksize > 0 && Sane(s) && s.phase.DataLen? && s.part64 == s.part32 == 0
    requires s.data.bytes == s.inst.bytes == s.addr.bytes == [] && Drive(cfg, s, input).events != []
    ensures g == f.(dataLen := g.dataLen, instLen := g.instLen, addrLen := g.addrLen)
    ensures Denotes(g.dataLen, TWO64) && Denotes(g.instLen, TWO64) && Denotes(g.addrLen, TWO64)
    ensures input == LengthsThen(g, rest)
    ensures Sane(InCheck(s, g)) && Drive(cfg, s, input) == Drive(cfg, InCheck(s, g), rest)
  {
    hide Drive, Step, EmitAct, HeaderAct, SectionAct, WindowAct, Num, Denotes;
    var d, r1 := NumberTaken(cfg, s, input, TWO64);
    var s4 := s.(phase := InstLen, data := Sect(Num(d), []));
    var i, r2 := NumberTaken(cfg, s4, r1, TWO64);
    var s5 := s4.(phase := AddrLen, inst := Sect(Num(i), []));
    var a, r3 := NumberTaken(cfg, s5, r2, TWO64);
    rest := r3;
    g := f.(dataLen := d, instLen := i, addrLen := a);
  }

  lemma SizesTaken(cfg: Config, s: Dec, f: Frame, input: seq<byte>) returns (g: Frame, rest: seq<byte>)
    requires cfg.blksize > 0 && Sane(s) && s.phase.EncLen? && s.part64 == s.part32 == 0 && s.cpylen == Num(f.cpyLen)
    requires s.data.bytes == s.inst.bytes == s.addr.bytes == [] && Drive(cfg, s, input).events != []
    ensures g == WithSizes(f, g) && SizesOk(g) && input == SizesThen(g, rest)
    ensures var t := InCheck(InLengths(s, g), g); Sane(t) && Drive(cfg, s, input) == Drive(cfg, t, rest)
  {
    hide Drive, Step, EmitAct, HeaderAct, SectionAct, WindowAct, Num, Denotes;
    var e, r1 := NumberTaken(cfg, s, input, TWO64);
    var s1 := s.(phase := TgtLen, enclen := Num(e));
    var n, r2 := NumberTaken(cfg, s1, r1, TWO64);
    var s2 := s1.(phase := DelInd, tgtlen := Num(n));
    var zero, r3 := ByteTaken(cfg, s2, r2);
    g := f.(encLen := e, tgtLen := n);
    g, rest := LengthsTaken(cfg, InLengths(s, g), g, r3);
  }

  lemma CheckTaken(cfg: Config, s: Dec, f: Frame, input: seq<byte>) returns (g: Frame, rest: seq<byte>)
    requires cfg.blksize > 0 && Sane(s) && s.phase.Cksum? && s.cksum == [] && s.winInd == f.ind
    requires Drive(cfg, s, input).events != [] && s.currentWindow == s.windowCount
    ensures g == f.(cksum := g.cksum) && input == g.cksum + rest && |g.cksum| == if Bit2(f.ind) then 4 else 0
    ensures s.enclen == EncLength(s.tgtlen, s.data.size, s.inst.size, s.addr.size, Bit2(f.ind))
    ensures Sane(InSections(s, g))
    ensures Drive(cfg, s, input) == Before([FirstEvent(s)], Drive(cfg, InSections(s, g), rest))
  {
    hide Drive, Step, EmitAct, HeaderAct, SectionAct, WindowAct, EncLength, BigEndian;
    if Bit2(f.ind) {
      var sum, r := BytesTaken(cfg, s, input, 4);
      g, rest := f.(cksum := sum), r;
    } else {
      NothingTaken(cfg, s, input);
      g, rest := f.(cksum := []), input;
      assert [] + rest == rest;
    }
  }

  lemma SectionsTaken(cfg: Config, s: Dec, f: Frame, input: seq<byte>) returns (g: Frame, rest: seq<byte>)
    requires Emits(cfg) && Sane(s) && s.phase.DataSection? && s.winbytes == 0 && !HasTarget(s)
    requires s.data.bytes == s.inst.bytes == s.addr.bytes == [] && Drive(cfg, s, input).events != []
    ensures g == f.(data := g.data, inst := g.inst, addr := g.addr) && input == SectionsThen(g, rest)
    ensures |g.data| == s.data.size && |g.inst| == s.inst.size && |g.addr| == s.addr.size
    ensures |g.data| + |g.inst| + |g.addr| < TWO64
  {
    hide Drive, Step, EmitAct, HeaderAct, WindowAct, SizesAct;
    NeedFits(cfg, s, input);
    var d, r1 := BytesTaken(cfg, s, input, s.data.size);
    var s1 := s.(phase := InstSection, winbytes := |d|, data := Sect(|d|, d));
    var i, r2 := BytesTaken(cfg, s1, r1, s.inst.size);
    var s2 := s1.(phase := AddrSection, winbytes := |d| + |i|, inst := Sect(|i|, i));
    var a, r3 := BytesTaken(cfg, s2, r2, s.addr.size);
    g, rest := f.(data := d, inst := i, addr := a), r3;
  }

  lemma NeedFits(cfg: Config, s: Dec, input: seq<byte>)
    requires Emits(cfg) && Sane(s) && s.phase.DataSection?
    ensures Need(s) >= TWO64 ==> Drive(cfg, s, input).events == []
  {
    hide HeaderAct, WindowAct, SizesAct, EmitAct;
    assert Need(s) >= TWO64 ==> Step(cfg, s, input) == Failed(Bad(Internal));
  }

  /** A window that copies from the target file, between its indicator and its end. */
  predicate Barred(s: Dec) {
    HasTarget(s) && 10 <= Rank(s.phase) < 22
  }

  /** What it leads to: at the most its start is reported. */
  predicate StaysBarred(s: Dec, n: Next) {
    match n
    case Go(t) => Barred(t) && (Rank(s.phase) < 13 ==> Rank(t.phase) < 13)
    case Yield(_, t) => Barred(t) && Rank(t.phase) < 13 <= Rank(s.phase)
    case Fail(_) => true
  }

  lemma ActBarred(cfg: Config, s: Dec, v: StreamDecoder.Value)
    requires Emits(cfg) && Sane(s) && Barred(s)
    ensures StaysBarred(s, Act(cfg, s, v))
  {
    hide EncLength, BigEndian, HeaderAct, EmitAct;
  }

  lemma StepBarred(cfg: Config, s: Dec, input: seq<byte>)
    requires Emits(cfg) && Sane(s) && Barred(s)
    ensures match Step(cfg, s, input)
            case Went(t, _) => StaysBarred(s, Go(t))
            case Yielded(ev, t, _) => StaysBarred(s, Yield(ev, t))
            case Waiting(_) => true
            case Failed(_) => true
  {
    hide Act, DecodeInteger;
    match Reads(cfg, s) {
      case Nothing => ActBarred(cfg, s, Absent);
      case OneByte => if input != [] { ActBarred(cfg, s, Number(input[0])); }
      case Size => NumberBarred(cfg, s, s.part64, input, TWO64);
      case Offset => NumberBarred(cfg, s, s.part32, input, XOFF_LIMIT);
      case Fill(have, want) =>
        var take := Min(Max(want - |have|, 0), |input|);
        ActBarred(cfg, Saved(s, have + input[..take]).(winbytes := Count(s, take)), Filled(have + input[..take]));
      case Skip(want) =>
    }
  }

  lemma NumberBarred(cfg: Config, s: Dec, part: nat, input: seq<byte>, limit: nat)
    requires Emits(cfg) && Sane(s) && Barred(s)
    ensures match IntegerStep(cfg, s, part, input, limit)
            case Went(t, _) => StaysBarred(s, Go(t))
            case Yielded(ev, t, _) => StaysBarred(s, Yield(ev, t))
            case Waiting(_) => true
            case Failed(_) => true
  {
    hide Act, DecodeInteger;
    match DecodeInteger(part, input, limit)
    case Done(v, _) => ActBarred(cfg, PartSaved(s, 0, limit), Number(v));
    case _ =>
  }

  lemma {:induction false} TargetRefused(cfg: Config, s: Dec, input: seq<byte>)
    requires Emits(cfg) && Sane(s) && Barred(s)
    ensures |Drive(cfg, s, input).events| <= if Rank(s.phase) < 13 then 0 else 1
    decreases |input|, Rank(s.phase)
  {
    StepBarred(cfg, s, input);
    hide Step;
    match Step(cfg, s, input)
    case Went(t, rest) => TargetRefused(cfg, t, rest);
    case Yielded(ev, t, rest) => TargetRefused(cfg, t, rest);
    case _ =>
  }

  /** Two statuses take a whole frame. */
  lemma FrameFound(cfg: Config, s: Dec, input: seq<byte>) returns (f: Frame, rest: seq<byte>)
    requires Emits(cfg) && Sane(s) && AtWindow(s, s.windowCount) && |Drive(cfg, s, input).events| >= 2
    ensures Room(s) && FrameOk(f) && input == FrameThen(f, rest)
  {
    hide Drive, Step, EmitAct, HeaderAct, SizesAct, SectionAct, Num, EncLength, BigEndian, Denotes;
    var ind, r1 := ByteTaken(cfg, s, input);
    f := Frame(ind, [], [], [], [], [], [], [], [], [], [], []);
    var s1 := InCopy(s, f);
    if Bit1(ind) {
      TargetRefused(cfg, s1, r1);
    }
    var r2, r3, r4;
    f, r2 := CopyTaken(cfg, s1, r1);
    var s2 := InSizes(s1, f);
    f, r3 := SizesTaken(cfg, s2, f, r2);
    var s3 := InCheck(InLengths(s2, f), f);
    f, r4 := CheckTaken(cfg, s3, f, r3);
    f, rest := SectionsTaken(cfg, InSections(s3, f), f, r4);
  }

  // ----- whole runs

  /** The window is handed over as `out`. */
  ghost predicate Accepted(cfg: Config, f: Frame, out: seq<byte>)
    requires cfg.blksize > 0
  {
    FrameOk(f) && DecodesTo(cfg, f, out) && (cfg.noVerify || SumRight(f, out))
  }

  function FramesThen(fs: seq<Frame>, rest: seq<byte>): seq<byte> {
    if fs == [] then rest else FrameThen(fs[0], FramesThen(fs[1..], rest))
  }

  /** The statuses for these outputs, from the `k`-th window on. */
  function OutEvents(k: nat, outs: seq<seq<byte>>): seq<Event>
    decreases |outs|
  {
    if outs == [] then []
    else [if k == 0 then GotHeader else WinStart, Output(outs[0]), WinFinish] + OutEvents(k + 1, outs[1..])
  }

  ghost predicate AllAccepted(cfg: Config, fs: seq<Frame>, outs: seq<seq<byte>>)
    requires cfg.blksize > 0
  {
    |fs| == |outs| && forall i :: 0 <= i < |fs| ==> Accepted(cfg, fs[i], outs[i])
  }

  /** Two statuses take a frame that is accepted, and then the run goes on behind it. */
  lemma WindowSound(cfg: Config, s: Dec, input: seq<byte>)
    returns (f: Frame, out: seq<byte>, rest: seq<byte>, t: Dec)
    requires Emits(cfg) && Sane(s) && AtWindow(s, s.windowCount) && |Drive(cfg, s, input).events| >= 2
    ensures input == FrameThen(f, rest) && Accepted(cfg, f, out) && |rest| < |input|
    ensures Sane(t) && AtWindow(t, s.windowCount + 1)
    ensures Drive(cfg, s, input) == Before([FirstEvent(s), Output(out), WinFinish], Drive(cfg, t, rest))
  {
    hide Drive, Sane, Room, FrameOk, SumRight, DecodesTo;
    f, rest := FrameFound(cfg, s, input);
    if exists o :: DecodesTo(cfg, f, o) {
      out :| DecodesTo(cfg, f, out);
      if !cfg.noVerify && !SumRight(f, out) {
        MisSummedRefused(cfg, s, f, out, rest);
      }
      t := FrameRead(cfg, s, f, out, rest);
    } else {
      UndecodableRefused(cfg, s, f, rest);
    }
  }

  /** Whatever bytes come: everything handed over belongs to frames that are accepted, one after the
      other from the beginning of the input; of what is behind them no more than a start is reported. */
  lemma {:induction false} FramesSound(cfg: Config, s: Dec, k: nat, input: seq<byte>)
    returns (fs: seq<Frame>, outs: seq<seq<byte>>, rest: seq<byte>, tail: seq<Event>)
    requires Emits(cfg) && Sane(s) && AtWindow(s, k)
    ensures AllAccepted(cfg, fs, outs) && input == FramesThen(fs, rest)
    ensures Drive(cfg, s, input).events == OutEvents(k, outs) + tail && |tail| <= 1
    decreases |input|
  {
    hide Drive, Sane, Accepted, FrameThen;
    if |Drive(cfg, s, input).events| < 2 {
      fs, outs, rest, tail := [], [], input, Drive(cfg, s, input).events;
      assert [] + tail == tail;
    } else {
      var f, out, r, t := WindowSound(cfg, s, input);
      fs, outs, rest, tail := FramesSound(cfg, t, k + 1, r);
      var first := [FirstEvent(s), Output(out), WinFinish];
      assert first + (OutEvents(k + 1, outs) + tail) == first + OutEvents(k + 1, outs) + tail;
      assert ([out] + outs)[1..] == outs && ([f] + fs)[1..] == fs;
      fs, outs := [f] + fs, [out] + outs;
    }
  }

  /** The file header: magic, indicator, and the application header it may announce. */
  ghost predicate IsHeader(hdr: seq<byte>) {
    || hdr == [0xd6, 0xc3, 0xc4, 0, 0]
    || exists len: seq<byte>, app: seq<byte> ::
         Denotes(len, TWO64) && |app| == Num(len) && hdr == [0xd6, 0xc3, 0xc4, 0, 4] + len + app
  }

  lemma PlainHeader(cfg: Config, s: Dec, input: seq<byte>)
    requires cfg.blksize > 0 && s.phase.SecondId? && s.part64 == s.part32 == 0 && s.hdrInd < 8
    requires Drive(cfg, s, input).events != []
    ensures s.hdrInd == 0 || s.hdrInd == 4
  {
    hide Drive, Step, EmitAct, WindowAct, SectionAct, SizesAct, Num, Denotes;
    if Secondary(s) {
      var id, r := ByteTaken(cfg, s, input);
      assert false;
    }
    if StreamDecoder.CodeTable(s) {
      NothingTaken(cfg, s, input);
      var s1 := s.(phase := TabLen);
      var n, r1 := NumberTaken(cfg, s1, input, TWO64);
      var s2 := Act(cfg, s1, Number(Num(n))).s;
      var near, r2 := ByteTaken(cfg, s2, r1);
      var s3 := s2.(phase := Same, near := near);
      var same, r3 := ByteTaken(cfg, s3, r2);
      NothingTaken(cfg, s3.(phase := TabDat, same := same), r3);
      assert false;
    }
  }

  lemma AppFound(cfg: Config, s: Dec, input: seq<byte>)
    returns (len: seq<byte>, app: seq<byte>, rest: seq<byte>, t: Dec)
    requires cfg.blksize > 0 && s.phase.AppLen? && s.part64 == s.part32 == 0 && s.app == [] && s.hdrInd == 4
    requires Drive(cfg, s, input).events != []
    ensures Denotes(len, TWO64) && |app| == Num(len) && input == len + app + rest
    ensures t == s.(phase := WinInd, appsz := Num(len), app := app)
    ensures Sane(t) && Drive(cfg, s, input) == Drive(cfg, t, rest)
  {
    hide Drive, Step, EmitAct, WindowAct, SectionAct, SizesAct, Num, Denotes;
    var r;
    len, r := NumberTaken(cfg, s, input, TWO64);
    var s1 := s.(phase := AppDat, appsz := Num(len));
    NoHugeHeader(cfg, s1, r);
    app, rest := BytesTaken(cfg, s1, r, Num(len));
    t := s1.(phase := WinInd, app := app);
    assert len + app + rest == len + (app + rest);
  }

  lemma NoHugeHeader(cfg: Config, s: Dec, input: seq<byte>)
    requires cfg.blksize > 0 && s.phase.AppDat? && s.hdrInd == 4
    ensures Sane(s) && (s.appsz >= TWO64 - 1 ==> Drive(cfg, s, input).events == [])
  {
    hide EmitAct, WindowAct, SectionAct, SizesAct;
    assert s.appsz >= TWO64 - 1 ==> Step(cfg, s, input) == Failed(Bad(InvalidInput));
  }

  lemma HeaderFound(cfg: Config, input: seq<byte>) returns (hdr: seq<byte>, rest: seq<byte>, t: Dec)
    requires cfg.blksize > 0 && Drive(cfg, Start(), input).events != []
    ensures input == hdr + rest && IsHeader(hdr)
    ensures Sane(t) && AtWindow(t, 0) && Drive(cfg, Start(), input) == Drive(cfg, t, rest)
  {
    hide Drive, Step, EmitAct, WindowAct, SectionAct, SizesAct, Num, Denotes, Onward, HasAdler;
    var s := Start();
    var magic, r1 := BytesTaken(cfg, s, input, 4);
    var s1 := s.(phase := HdrInd, magic := magic);
    var ind, r2 := ByteTaken(cfg, s1, r1);
    var s2 := s1.(phase := SecondId, hdrInd := ind);
    PlainHeader(cfg, s2, r2);
    DefaultsRead(cfg, s2, r2);
    var s3 := s2.(phase := AppLen);
    if ind == 4 {
      var len, app, r3, t3 := AppFound(cfg, s3, r2);
      hdr, rest, t := [0xd6, 0xc3, 0xc4, 0, 4] + len + app, r3, t3;
      assert [0xd6, 0xc3, 0xc4, 0] + ([4] + (len + app + rest)) == hdr + rest;
    } else {
      NothingTaken(cfg, s3, r2);
      NothingTaken(cfg, s3.(phase := AppDat), r2);
      hdr, rest, t := [0xd6, 0xc3, 0xc4, 0, 0], r2, s3.(phase := WinInd);
      assert [0xd6, 0xc3, 0xc4, 0] + ([0] + rest) == hdr + rest;
    }
  }

  /** The same of whole files, in whatever pieces they arrive. */
  lemma FileSound(cfg: Config, first: seq<byte>, chunks: seq<seq<byte>>)
    returns (hdr: seq<byte>, fs: seq<Frame>, outs: seq<seq<byte>>, rest: seq<byte>, tail: seq<Event>)
    requires Emits(cfg)
    ensures first + Flat(chunks) == hdr + FramesThen(fs, rest) && AllAccepted(cfg, fs, outs)
    ensures var r := DriveAll(cfg, Drive(cfg, Start(), first), chunks);
            && r.events == OutEvents(0, outs) + tail && |tail| <= 1
            && (r.events != [] ==> IsHeader(hdr))
  {
    hide Drive, DriveAll, Accepted, IsHeader;
    var input := first + Flat(chunks);
    ChunkingIrrelevant(cfg, Start(), first, chunks);
    if Drive(cfg, Start(), input).events == [] {
      hdr, fs, outs, rest, tail := [], [], [], input, [];
      assert [] + input == input;
    } else {
      var r, t;
      hdr, r, t := HeaderFound(cfg, input);
      fs, outs, rest, tail := FramesSound(cfg, t, 0, r);
    }
  }

  // ----- windows as the encoder writes them, with any checksum

  /** The bytes of a window with `sum` in the place of its checksum. */
  function SummedBytes(w: EncWindow, sum: nat): seq<byte>
    requires sum < TWO32
  {
    [Indicator(w, true)] + CopyWindow(w) + Sizes(w, true) + BigEndian4(sum) + Sections(w)
  }

  lemma WrittenIsSummed(w: EncWindow)
    ensures Checksum(1, w.target) < TWO32 && WindowBytes(w, true) == SummedBytes(w, Checksum(1, w.target))
  {
    hide CopyWindow, Sizes, BigEndian4, Sections, Checksum;
    ChecksumFits(w.target);
  }

  function FrameOf(w: EncWindow, sum: nat): Frame
    requires sum < TWO32
  {
    Frame(Indicator(w, true), if w.srclen > 0 then Encoding(w.srclen) else [],
          if w.srclen > 0 then Encoding(w.srcbase) else [], Encoding(EncLenOf(w, true)), Encoding(|w.target|),
          Encoding(|w.data|), Encoding(|w.inst|), Encoding(|w.addr|), BigEndian4(sum), w.data, w.inst, w.addr)
  }

  /** Five pieces, and what is behind them. */
  lemma Regroup(a: seq<byte>, b: seq<byte>, c: seq<byte>, d: seq<byte>, e: seq<byte>, rest: seq<byte>)
    ensures a + b + c + d + e + rest == a + (b + (c + (d + (e + rest))))
  {
  }

  lemma SizesAreThen(w: EncWindow, sum: nat, rest: seq<byte>)
    requires sum < TWO32
    ensures Sizes(w, true) + rest == SizesThen(FrameOf(w, sum), rest)
  {
    hide Encoding, EncLenOf, BigEndian4;
    var f := FrameOf(w, sum);
    Regroup(f.encLen, f.tgtLen, [0], f.dataLen, f.instLen, f.addrLen + rest);
    assert Sizes(w, true) + rest
        == f.encLen + f.tgtLen + [0] + f.dataLen + f.instLen + (f.addrLen + rest);
  }

  lemma SectionsAreThen(w: EncWindow, sum: nat, rest: seq<byte>)
    requires sum < TWO32
    ensures Sections(w) + rest == SectionsThen(FrameOf(w, sum), rest)
  {
    hide Encoding, EncLenOf, BigEndian4;
    assert w.data + w.inst + w.addr + rest == w.data + (w.inst + (w.addr + rest));
  }

  lemma CopyIsThen(w: EncWindow, sum: nat, rest: seq<byte>)
    requires sum < TWO32
    ensures CopyWindow(w) + rest == CopyThen(FrameOf(w, sum), rest)
  {
    hide Encoding, EncLenOf, BigEndian4;
    assert [] + ([] + rest) == rest;
  }

  lemma SummedIsFrame(w: EncWindow, sum: nat, rest: seq<byte>)
    requires sum < TWO32
    ensures SummedBytes(w, sum) + rest == FrameThen(FrameOf(w, sum), rest)
  {
    hide Encoding, EncLenOf, BigEndian4, Sections, Sizes, CopyWindow, SectionsThen, SizesThen, CopyThen;
    SectionsAreThen(w, sum, rest);
    var r2 := BigEndian4(sum) + (Sections(w) + rest);
    SizesAreThen(w, sum, r2);
    CopyIsThen(w, sum, Sizes(w, true) + r2);
    Regroup([Indicator(w, true)], CopyWindow(w), Sizes(w, true), BigEndian4(sum), Sections(w), rest);
  }

  lemma EncodingDenotes(n: nat, limit: nat)
    requires n < limit
    ensures Denotes(Encoding(n), limit) && Num(Encoding(n)) == n
  {
    EncodingMeaning(n);
  }

  lemma FrameOfOk(cfg: Config, w: EncWindow, sum: nat)
    requires Emits(cfg) && Decodable(cfg, w) && sum < TWO32
    ensures var f := FrameOf(w, sum);
            && FrameOk(f) && DecodesTo(cfg, f, w.target)
            && Bit2(f.ind) && BigEndian(f.cksum) == sum
  {
    hide Encoding, DecodeWindow, EncLength, Denotes, Num, BigEndian;
    ValueOfNone();
    EncodingDenotes(w.srclen, TWO64);
    EncodingDenotes(w.srcbase, XOFF_LIMIT);
    EncodingDenotes(EncLenOf(w, true), TWO64);
    EncodingDenotes(|w.target|, TWO64);
    EncodingDenotes(|w.data|, TWO64);
    EncodingDenotes(|w.inst|, TWO64);
    EncodingDenotes(|w.addr|, TWO64);
  }

  /** A window whose sections decode to `w.target`: with any other sum than that of these bytes the
      run ends, with theirs the window is handed over. */
  lemma SummedRead(cfg: Config, s: Dec, w: EncWindow, sum: nat, rest: seq<byte>)
    requires Emits(cfg) && Sane(s) && AtWindow(s, s.windowCount) && Room(s) && Decodable(cfg, w)
    requires sum < TWO32 && !cfg.noVerify
    ensures sum != Checksum(1, w.target) ==>
              Drive(cfg, s, SummedBytes(w, sum) + rest) == Run([FirstEvent(s)], Broken(Bad(InvalidInput)))
    ensures sum == Checksum(1, w.target) ==>
              exists t: Dec :: Sane(t) && AtWindow(t, s.windowCount + 1) &&
                Drive(cfg, s, SummedBytes(w, sum) + rest)
                == Before([FirstEvent(s), Output(w.target), WinFinish], Drive(cfg, t, rest))
  {
    hide Drive, Sane, AtWindow, FrameOf, SummedBytes, FrameOk, DecodesTo, Decodable, Checksum, FrameThen, Room;
    SummedIsFrame(w, sum, rest);
    FrameOfOk(cfg, w, sum);
    if sum == Checksum(1, w.target) {
      var t := FrameRead(cfg, s, FrameOf(w, sum), w.target, rest);
    } else {
      MisSummedRefused(cfg, s, FrameOf(w, sum), w.target, rest);
    }
  }

  lemma {:induction false} LastStartsInside(ws: seq<EncWindow>)
    ensures LastStart(ws) <= |Targets(ws)|
    decreases |ws|
  {
    if |ws| > 1 {
      LastStartsInside(ws[1..]);
    }
  }

  /** A file in which a window has been damaged, or that is applied to a source it was not made for,
      so that the window decodes to other bytes than those summed: however it is cut, the windows
      before it are reported, and with this window the run ends. */
  lemma DamageFound(cfg: Config, app: Option<seq<byte>>, ws: seq<EncWindow>, adler: bool, w: EncWindow, sum: nat,
                    after: seq<byte>, first: seq<byte>, chunks: seq<seq<byte>>)
    requires Emits(cfg) && !cfg.noVerify && (app.Some? ==> |app.value| < TWO64 - 1)
    requires forall i :: 0 <= i < |ws| ==> Decodable(cfg, ws[i])
    requires Decodable(cfg, w) && |Targets(ws)| < XOFF_LIMIT
    requires sum < TWO32 && sum != Checksum(1, w.target)
    requires first + Flat(chunks) == FileHeader(app) + (FileBytes(ws, adler) + (SummedBytes(w, sum) + after))
    ensures var r := DriveAll(cfg, Drive(cfg, Start(), first), chunks);
            && r.events == FileEvents(0, ws) + [if ws == [] then GotHeader else WinStart]
            && r.end == Broken(Bad(InvalidInput))
  {
    hide Drive, DriveAll, Decodable, Checksum, FileHeader, FileBytes, SummedBytes, Targets, FileEvents, Sane;
    StartIsReached();
    LastStartsInside(ws);
    ChunkingIrrelevant(cfg, Start(), first, chunks);
    var last := SummedBytes(w, sum) + after;
    var s := FileHeaderRead(cfg, app, FileBytes(ws, adler) + last);
    var t := WindowsRead(cfg, s, 0, ws, adler);
    DriveResumes(cfg, s, FileBytes(ws, adler), last);
    SummedRead(cfg, t, w, sum, after);
  }
}
