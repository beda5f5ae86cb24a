/**
 The resumable decoder (xd3_decode_input): a state machine over the VCDIFF file that accepts its
 input in arbitrary pieces.  Each phase reads one item, resuming a partly read one, and then acts
 on it; when input runs out in the middle of an item the machine returns to its caller.
 */
module StreamDecoder {
  import opened Bytes
  import opened Integers
  import opened Adler32
  import opened WindowFormat

  const HARDMAXWINSIZE: nat := 0x400_0000

  /** File offsets are `xoff_t`; in this build (large files off) that is 32 bits. */
  const XOFF_LIMIT: nat := TWO32

  datatype Phase =
    | VcHead | HdrInd | SecondId | TabLen | Near | Same | TabDat | AppLen | AppDat
    | WinInd | CpyLen | CpyOff | EncLen | TgtLen | DelInd | DataLen | InstLen | AddrLen | Cksum
    | DataSection | InstSection | AddrSection | Emit | Finish

  /** A section: its announced size, the bytes read of it so far, its contents once complete. */
  datatype Sect = Sect(size: nat, bytes: seq<byte>)

  /** The configuration: the source file and its block size, and the flags. */
  datatype Config = Config(source: Option<seq<byte>>, blksize: nat, justHdr: bool, skipWindow: bool,
                           skipEmit: bool, noVerify: bool)

  datatype Dec = Dec(
    phase: Phase, magic: seq<byte>, hdrInd: byte, codetblsz: nat, near: byte, same: byte,
    appsz: nat, app: seq<byte>,
    winInd: byte, cpylen: nat, cpyoff: nat, enclen: nat, tgtlen: nat, delInd: byte,
    part64: nat, part32: nat, cksum: seq<byte>, adler: nat,
    data: Sect, inst: Sect, addr: Sect, winbytes: nat,
    winstart: nat, windowCount: nat, currentWindow: nat)

  function Start(): Dec {
    Dec(VcHead, [], 0, 0, 0, 0, 0, [], 0, 0, 0, 0, 0, 0, 0, 0, [], 0,
        Sect(0, []), Sect(0, []), Sect(0, []), 0, 0, 0, 0)
  }

  datatype Failure = Bad(error: Error) | NoMemory

  /** The statuses returned besides XD3_INPUT, with the bytes that XD3_OUTPUT hands over. */
  datatype Event = GotHeader | WinStart | Output(bytes: seq<byte>) | WinFinish

  // ----- indicator bits

  predicate Bit0(b: byte) { b % 2 == 1 }
  predicate Bit1(b: byte) { b / 2 % 2 == 1 }
  predicate Bit2(b: byte) { b / 4 % 2 == 1 }

  predicate Secondary(s: Dec) { Bit0(s.hdrInd) }
  predicate CodeTable(s: Dec) { Bit1(s.hdrInd) }
  predicate AppHeader(s: Dec) { Bit2(s.hdrInd) }
  predicate HasSource(s: Dec) { Bit0(s.winInd) }
  predicate HasTarget(s: Dec) { Bit1(s.winInd) }
  predicate HasAdler(s: Dec) { Bit2(s.winInd) }

  /** SRCORTGT: a copy window is announced, by one of the two bits but not by both. */
  predicate SrcOrTgt(s: Dec) { HasSource(s) != HasTarget(s) }

  // ----- what each phase reads

  datatype Item =
    | Nothing
    | OneByte
    | Size    // a 64-bit integer, resumed through part64
    | Offset  // a 32-bit integer, resumed through part32
    | Fill(have: seq<byte>, want: nat)
    | Skip(want: nat)

  datatype Value = Absent | Number(n: nat) | Filled(bytes: seq<byte>)

  function Need(s: Dec): nat {
    s.data.size + s.inst.size + s.addr.size
  }

  /** What xd3_decode_sections does before it reads: nothing is read of a skipped window, of sizes
      that overflow, or when only headers are wanted. */
  function SectionItem(cfg: Config, s: Dec, sect: Sect): Item {
    if cfg.justHdr || Need(s) >= TWO64 then Nothing
    else if cfg.skipWindow then Skip(Need(s))
    else Fill(sect.bytes, sect.size)
  }

  function Reads(cfg: Config, s: Dec): Item {
    match s.phase
    case VcHead => Fill(s.magic, 4)
    case HdrInd => OneByte
    case SecondId => if Secondary(s) then OneByte else Nothing
    case TabLen => if CodeTable(s) then Size else Nothing
    case Near => if CodeTable(s) then OneByte else Nothing
    case Same => if CodeTable(s) then OneByte else Nothing
    case TabDat => Nothing
    case AppLen => if AppHeader(s) then Size else Nothing
    case AppDat => if AppHeader(s) && s.appsz < TWO64 - 1 then Fill(s.app, s.appsz) else Nothing
    case WinInd => OneByte
    case CpyLen => if SrcOrTgt(s) then Size else Nothing
    case CpyOff => if SrcOrTgt(s) then Offset else Nothing
    case EncLen => Size
    case TgtLen => Size
    case DelInd => OneByte
    case DataLen => Size
    case InstLen => Size
    case AddrLen => Size
    case Cksum => if HasAdler(s) then Fill(s.cksum, 4) else Nothing
    case DataSection => SectionItem(cfg, s, s.data)
    case InstSection => SectionItem(cfg, s, s.inst)
    case AddrSection => SectionItem(cfg, s, s.addr)
    case Emit => Nothing
    case Finish => Nothing
  }

  /** The state that remembers a partly filled buffer. */
  function Saved(s: Dec, have: seq<byte>): (r: Dec)
    ensures r.phase == s.phase && r.cpylen == s.cpylen && r.tgtlen == s.tgtlen
  {
    s.(magic := if s.phase.VcHead? then have else s.magic,
       app := if s.phase.AppDat? then have else s.app,
       cksum := if s.phase.Cksum? then have else s.cksum,
       data := if s.phase.DataSection? then s.data.(bytes := have) else s.data,
       inst := if s.phase.InstSection? then s.inst.(bytes := have) else s.inst,
       addr := if s.phase.AddrSection? then s.addr.(bytes := have) else s.addr)
  }

  /** Phases in the order they are passed through, between one window indicator and the next. */
  function Rank(p: Phase): nat {
    match p
    case VcHead => 30 case HdrInd => 29 case SecondId => 28 case TabLen => 27 case Near => 26 case Same => 25
    case TabDat => 24 case AppLen => 23 case AppDat => 22 case CpyLen => 21 case CpyOff => 20 case EncLen => 19
    case TgtLen => 18 case DelInd => 17 case DataLen => 16 case InstLen => 15 case AddrLen => 14 case Cksum => 13
    case DataSection => 12 case InstSection => 11 case AddrSection => 10 case Emit => 9 case Finish => 8
    case WinInd => 7
  }

  /** Once the window length is accepted, positions in the window fit the word. */
  predicate Sane(s: Dec) {
    9 <= Rank(s.phase) < 18 ==> s.cpylen + s.tgtlen < TWO64
  }

  // ----- what each phase does with what it read

  datatype Next = Go(s: Dec) | Yield(ev: Event, s: Dec) | Fail(f: Failure)

  function Invalid(): Next { Fail(Bad(InvalidInput)) }

  /** xd3_decode_finish_window. */
  function FinishWindow(s: Dec, out: seq<byte>): Next {
    Yield(Output(out), s.(winbytes := 0, phase := Finish,
                          data := s.data.(bytes := []), inst := s.inst.(bytes := []), addr := s.addr.(bytes := [])))
  }

  function BigEndian(s: seq<byte>): nat {
    if s == [] then 0 else 256 * BigEndian(s[..|s| - 1]) + s[|s| - 1]
  }

  function SizeOf64(n: nat): nat { SizeOf(n % TWO64, TWO64) }

  /** The redundant length of the delta encoding that a window header carries. */
  function EncLength(tgtlen: nat, data: nat, inst: nat, addr: nat, adler: bool): (r: nat)
    ensures r < TWO64
  {
    (1 + SizeOf64(tgtlen) + SizeOf64(data) + SizeOf64(inst) + SizeOf64(addr)
     + data + inst + addr + if adler then 4 else 0) % TWO64
  }

  /** Leads on: to a later phase, or around to the next window. */
  predicate Onward(s: Dec, r: Next) {
    r.Go? || r.Yield? ==> Sane(r.s) && (Rank(r.s.phase) < Rank(s.phase) || s.phase.WinInd?)
  }

  function HeaderAct(s: Dec, v: Value): (r: Next)
    requires 22 <= Rank(s.phase)
    ensures Onward(s, r)
  {
    match s.phase
    case VcHead =>
      if v == Filled([0xd6, 0xc3, 0xc4, 0])
      then Go(s.(phase := HdrInd)) else Invalid()
    case HdrInd =>
      if v.Number? && v.n < 8 then Go(s.(hdrInd := v.n, phase := SecondId)) else Invalid()
    case SecondId =>
      if v.Number? then if v.n == 16 || v.n == 1 || v.n == 2 then Fail(Bad(Internal)) else Invalid()
      else Go(s.(phase := TabLen))
    case TabLen =>
      if v.Number? then if v.n <= 2 then Fail(NoMemory) else Go(s.(codetblsz := v.n - 2, phase := Near))
      else Go(s.(phase := Near))
    case Near =>
      if v.Number? && v.n < 256 then Go(s.(near := v.n, phase := Same)) else Go(s.(phase := Same))
    case Same =>
      if v.Number? && v.n < 256 then Go(s.(same := v.n, phase := TabDat)) else Go(s.(phase := TabDat))
    case TabDat => if CodeTable(s) then Fail(Bad(Unimplemented)) else Go(s.(phase := AppLen))
    case AppLen => Go(if v.Number? then s.(appsz := v.n, phase := AppDat) else s.(phase := AppDat))
    case AppDat => if AppHeader(s) && !v.Filled? then Invalid() else Go(s.(phase := WinInd))
  }

  function WindowAct(s: Dec, v: Value): (r: Next)
    requires Sane(s) && (s.phase.WinInd? || 20 <= Rank(s.phase) < 22)
    ensures Onward(s, r)
  {
    var n := if v.Number? then v.n else 0;
    match s.phase
    case WinInd =>
      if XOFF_LIMIT - 1 - s.winstart < s.tgtlen % XOFF_LIMIT || n >= 8 then Invalid()
      else Go(s.(winInd := n, currentWindow := s.windowCount, winstart := s.winstart + s.tgtlen,
                 cpylen := 0, cpyoff := 0, cksum := [], phase := CpyLen))
    case CpyLen => Go(s.(cpylen := if v.Number? then n else s.cpylen, phase := CpyOff))
    case CpyOff =>
      var off := if v.Number? then n else s.cpyoff;
      if XOFF_LIMIT - 1 - off < s.cpylen % XOFF_LIMIT then Invalid()
      else if HasTarget(s) && (off + s.cpylen) % TWO64 > s.winstart then Invalid()
      else Go(s.(cpyoff := off, phase := EncLen))
  }

  function SizesAct(s: Dec, v: Value): (r: Next)
    requires Sane(s) && 13 <= Rank(s.phase) < 20
    ensures Onward(s, r)
  {
    var n := if v.Number? then v.n else 0;
    match s.phase
    case EncLen => Go(s.(enclen := n, phase := TgtLen))
    case TgtLen =>
      if TWO64 - 1 - s.cpylen < n || n > HARDMAXWINSIZE then Invalid()
      else Go(s.(tgtlen := n, phase := DelInd))
    case DelInd =>
      // no secondary compressor: any indicator bit is refused
      if n != 0 then Invalid() else Go(s.(delInd := 0, phase := DataLen))
    case DataLen => Go(s.(data := s.data.(size := n), phase := InstLen))
    case InstLen => Go(s.(inst := s.inst.(size := n), phase := AddrLen))
    case AddrLen => Go(s.(addr := s.addr.(size := n), phase := Cksum))
    case Cksum =>
      var t := s.(adler := if v.Filled? then BigEndian(v.bytes) else s.adler, phase := DataSection);
      if t.enclen != EncLength(t.tgtlen, t.data.size, t.inst.size, t.addr.size, HasAdler(t)) then Invalid()
      else Yield(if t.currentWindow == 0 then GotHeader else WinStart, t)
  }

  function SectionAct(cfg: Config, s: Dec, v: Value): (r: Next)
    requires Sane(s) && 10 <= Rank(s.phase) < 13
    ensures Onward(s, r)
  {
    if cfg.justHdr then FinishWindow(s, [])
    else if Need(s) >= TWO64 then Fail(Bad(Internal))
    else if cfg.skipWindow then FinishWindow(s, [])
    else
      match s.phase
      case DataSection => Go(s.(phase := InstSection))
      case InstSection => Go(s.(phase := AddrSection))
      case AddrSection =>
        if cfg.skipEmit then FinishWindow(s, [])
        else if HasTarget(s) then Fail(Bad(Unimplemented))
        else Go(s.(phase := Emit))
  }

  function TheWindow(cfg: Config, s: Dec): Window {
    Window(if cfg.source.Some? then cfg.source.value else [], cfg.blksize, s.cpyoff, s.cpylen, s.tgtlen)
  }

  function EmitAct(cfg: Config, s: Dec): (r: Next)
    requires cfg.blksize > 0 && Sane(s) && s.phase.Emit?
    ensures Onward(s, r)
  {
    if HasSource(s) && cfg.source.None? then Invalid()
    else Deliverable(cfg, s, DecodeWindow(TheWindow(cfg, s), s.data.bytes, s.inst.bytes, s.addr.bytes))
  }

  /** The checksum is compared, then the window is handed over. */
  function Deliverable(cfg: Config, s: Dec, decoded: Result<seq<byte>>): (r: Next)
    requires Sane(s) && s.phase.Emit?
    ensures Onward(s, r)
  {
    match decoded
    case Err(e) => Fail(Bad(e))
    case Ok(out) =>
      if HasAdler(s) && !cfg.noVerify && Checksum(1, out) != s.adler then Invalid() else FinishWindow(s, out)
  }

  function Act(cfg: Config, s: Dec, v: Value): (r: Next)
    requires cfg.blksize > 0 && Sane(s)
    ensures Onward(s, r)
  {
    if s.phase.WinInd? || 20 <= Rank(s.phase) < 22 then WindowAct(s, v)
    else if 13 <= Rank(s.phase) < 20 then SizesAct(s, v)
    else if 10 <= Rank(s.phase) < 13 then SectionAct(cfg, s, v)
    else if s.phase.Emit? then EmitAct(cfg, s)
    else if s.phase.Finish? then Yield(WinFinish, s.(windowCount := s.windowCount + 1, phase := WinInd))
    else HeaderAct(s, v)
  }

  // ----- one step of the machine

  datatype StepResult =
    | Went(s: Dec, rest: seq<byte>)
    | Yielded(ev: Event, s: Dec, rest: seq<byte>)
    | Waiting(s: Dec)
    | Failed(f: Failure)

  function Deliver(n: Next, rest: seq<byte>): StepResult {
    match n
    case Go(s) => Went(s, rest)
    case Yield(ev, s) => Yielded(ev, s, rest)
    case Fail(f) => Failed(f)
  }

  /** Bytes of the three sections are counted. */
  function Count(s: Dec, take: nat): nat {
    if 10 <= Rank(s.phase) < 13 then s.winbytes + take else s.winbytes
  }

  /** A step that does not wait takes input, or leads to a later phase. */
  predicate Progress(s: Dec, input: seq<byte>, r: StepResult) {
    && (!r.Failed? ==> Sane(r.s))
    && (r.Went? || r.Yielded? ==>
          |r.rest| < |input| || (r.rest == input && Rank(r.s.phase) < Rank(s.phase)))
  }

  /** Reads the item of this phase, as far as the input goes, and acts on it when it is whole. */
  function Step(cfg: Config, s: Dec, input: seq<byte>): (r: StepResult)
    requires cfg.blksize > 0 && Sane(s)
    ensures Progress(s, input, r)
  {
    match Reads(cfg, s)
    case Nothing => Deliver(Act(cfg, s, Absent), input)
    case OneByte =>
      if input == [] then Waiting(s) else Deliver(Act(cfg, s, Number(input[0])), input[1..])
    case Size => IntegerStep(cfg, s, s.part64, input, TWO64)
    case Offset => IntegerStep(cfg, s, s.part32, input, XOFF_LIMIT)
    case Fill(have, want) => FillStep(cfg, s, have, want, input)
    case Skip(want) => SkipStep(cfg, s, want, input)
  }

  function PartSaved(s: Dec, p: nat, limit: nat): Dec {
    if limit == TWO64 then s.(part64 := p) else s.(part32 := p)
  }

  function IntegerStep(cfg: Config, s: Dec, part: nat, input: seq<byte>, limit: nat): (r: StepResult)
    requires cfg.blksize > 0 && Sane(s)
    ensures Progress(s, input, r)
  {
    DecodeShorter(part, input, limit);
    match DecodeInteger(part, input, limit)
    case Done(v, rest) => Deliver(Act(cfg, PartSaved(s, 0, limit), Number(v)), rest)
    case More(p) => Waiting(PartSaved(s, p, limit))
    case Overflow => Failed(Bad(InvalidInput))
  }

  function FillStep(cfg: Config, s: Dec, have: seq<byte>, want: nat, input: seq<byte>): (r: StepResult)
    requires cfg.blksize > 0 && Sane(s) && !s.phase.WinInd?
    ensures Progress(s, input, r)
  {
    hide Saved;
    var take := Min(Max(want - |have|, 0), |input|);
    var s' := Saved(s, have + input[..take]).(winbytes := Count(s, take));
    if |have| + take < want then Waiting(s')
    else Deliver(Act(cfg, s', Filled(have + input[..take])), input[take..])
  }

  function SkipStep(cfg: Config, s: Dec, want: nat, input: seq<byte>): (r: StepResult)
    requires cfg.blksize > 0 && Sane(s) && !s.phase.WinInd?
    ensures Progress(s, input, r)
  {
    var take := Min(Max(want - s.winbytes, 0), |input|);
    var s' := s.(winbytes := s.winbytes + take);
    if s'.winbytes < want then Waiting(s') else Deliver(Act(cfg, s', Absent), input[take..])
  }

  lemma DecodeShorter(part: nat, input: seq<byte>, limit: nat)
    ensures var r := DecodeInteger(part, input, limit); r.Done? ==> |r.rest| < |input|
    decreases |input|
  {
  }

  // ----- where the input is cut does not matter

  /** What a step that ended as `r` does when more input is behind. */
  function Resumed(cfg: Config, r: StepResult, b: seq<byte>): StepResult
    requires cfg.blksize > 0 && (!r.Failed? ==> Sane(r.s))
  {
    match r
    case Went(t, rest) => Went(t, rest + b)
    case Yielded(ev, t, rest) => Yielded(ev, t, rest + b)
    case Waiting(t) => Step(cfg, t, b)
    case Failed(f) => Failed(f)
  }

  /** A step on a longer input is a step on its beginning, resumed if that asked for more. */
  lemma StepResumes(cfg: Config, s: Dec, a: seq<byte>, b: seq<byte>)
    requires cfg.blksize > 0 && Sane(s)
    ensures Step(cfg, s, a + b) == Resumed(cfg, Step(cfg, s, a), b)
  {
    hide Act;
    match Reads(cfg, s) {
      case Nothing =>
      case OneByte =>
        if a == [] {
          assert a + b == b;
        } else {
          assert (a + b)[0] == a[0] && (a + b)[1..] == a[1..] + b;
        }
      case Size => DecodeResumes(s.part64, a, b, TWO64);
      case Offset => DecodeResumes(s.part32, a, b, XOFF_LIMIT);
      case Fill(_, _) => FillResumes(cfg, s, a, b);
      case Skip(_) => SkipResumes(cfg, s, a, b);
    }
  }

  /** A partly filled buffer is all that a step remembers of the input it took. */
  lemma SavedFills(cfg: Config, s: Dec, have: seq<byte>, n: nat)
    requires Reads(cfg, s).Fill?
    ensures var t := Saved(s, have).(winbytes := n);
            && Reads(cfg, t) == Fill(have, Reads(cfg, s).want)
            && t.phase == s.phase && !s.phase.WinInd? && t.winbytes == n && (Sane(s) ==> Sane(t))
  {
    hide Rank;
  }

  /** Filled further, the buffer forgets how it was filled. */
  lemma SavedTwice(s: Dec, have: seq<byte>, n: nat, more: seq<byte>, m: nat)
    ensures Saved(Saved(s, have).(winbytes := n), more).(winbytes := m) == Saved(s, more).(winbytes := m)
  {
  }

  lemma FillResumes(cfg: Config, s: Dec, a: seq<byte>, b: seq<byte>)
    requires cfg.blksize > 0 && Sane(s) && Reads(cfg, s).Fill?
    ensures Step(cfg, s, a + b) == Resumed(cfg, Step(cfg, s, a), b)
  {
    hide Act, Reads, Saved, Sane;
    var Fill(have, want) := Reads(cfg, s);
    var room := Max(want - |have|, 0);
    if room <= |a| {
      assert (a + b)[..room] == a[..room] && (a + b)[room..] == a[room..] + b;
    } else {
      FillGoesOn(cfg, s, a, b);
    }
  }

  lemma FillGoesOn(cfg: Config, s: Dec, a: seq<byte>, b: seq<byte>)
    requires cfg.blksize > 0 && Sane(s) && Reads(cfg, s).Fill? && |Reads(cfg, s).have| + |a| < Reads(cfg, s).want
    ensures Step(cfg, s, a + b) == Resumed(cfg, Step(cfg, s, a), b)
  {
    hide Act, Reads, Saved, Sane;
    var Fill(have, want) := Reads(cfg, s);
    assert a[..|a|] == a;
    SavedFills(cfg, s, have + a, Count(s, |a|));
    var t := Saved(s, have + a).(winbytes := Count(s, |a|));
    assert Step(cfg, s, a) == Waiting(t);
    var more := Min(want - |have| - |a|, |b|);
    assert (a + b)[..|a| + more] == a + b[..more] && (a + b)[|a| + more..] == b[more..];
    assert have + (a + b[..more]) == have + a + b[..more];
    SavedTwice(s, have + a, Count(s, |a|), have + a + b[..more], Count(s, |a| + more));
    assert Step(cfg, t, b) == FillStep(cfg, t, have + a, want, b);
  }

  lemma SkipResumes(cfg: Config, s: Dec, a: seq<byte>, b: seq<byte>)
    requires cfg.blksize > 0 && Sane(s) && Reads(cfg, s).Skip?
    ensures Step(cfg, s, a + b) == Resumed(cfg, Step(cfg, s, a), b)
  {
    hide *;
    var want := Reads(cfg, s).want;
    var t := s.(winbytes := s.winbytes + |a|);
    SkippedReads(cfg, s, |a|);
    StepIsSkip(cfg, s, a);
    StepIsSkip(cfg, s, a + b);
    StepIsSkip(cfg, t, b);
    if s.winbytes + |a| < want {
      SkipGoesOn(cfg, s, want, a, b);
      WaitingResumes(cfg, t, b);
    } else {
      SkipEnds(cfg, s, want, a, b);
    }
  }

  lemma WaitingResumes(cfg: Config, t: Dec, b: seq<byte>)
    requires cfg.blksize > 0 && Sane(t)
    ensures Resumed(cfg, Waiting(t), b) == Step(cfg, t, b)
  {
  }

  lemma SkipEnds(cfg: Config, s: Dec, want: nat, a: seq<byte>, b: seq<byte>)
    requires cfg.blksize > 0 && Sane(s) && !s.phase.WinInd? && s.winbytes + |a| >= want
    ensures SkipStep(cfg, s, want, a + b) == Resumed(cfg, SkipStep(cfg, s, want, a), b)
  {
    hide Act, Step;
    var room := Max(want - s.winbytes, 0);
    assert (a + b)[room..] == a[room..] + b;
  }

  lemma StepIsSkip(cfg: Config, s: Dec, input: seq<byte>)
    requires cfg.blksize > 0 && Sane(s) && Reads(cfg, s).Skip?
    ensures !s.phase.WinInd? && Step(cfg, s, input) == SkipStep(cfg, s, Reads(cfg, s).want, input)
  {
    hide SkipStep;
  }

  lemma SkipGoesOn(cfg: Config, s: Dec, want: nat, a: seq<byte>, b: seq<byte>)
    requires cfg.blksize > 0 && Sane(s) && !s.phase.WinInd? && s.winbytes + |a| < want
    ensures var t := s.(winbytes := s.winbytes + |a|);
            && Sane(t) && SkipStep(cfg, s, want, a) == Waiting(t)
            && SkipStep(cfg, s, want, a + b) == SkipStep(cfg, t, want, b)
  {
    hide Act;
    var t := s.(winbytes := s.winbytes + |a|);
    var more := Min(Max(want - s.winbytes, 0) - |a|, |b|);
    assert (a + b)[|a| + more..] == b[more..];
  }

  /** Skipping leaves the phase waiting for the same number of bytes. */
  lemma SkippedReads(cfg: Config, s: Dec, n: nat)
    requires Reads(cfg, s).Skip?
    ensures var t := s.(winbytes := s.winbytes + n);
            Reads(cfg, t) == Reads(cfg, s) && !s.phase.WinInd? && (Sane(s) ==> Sane(t))
  {
  }

  // ----- whole runs

  datatype End = Wants(s: Dec) | Broken(f: Failure)

  /** A run: the statuses besides XD3_INPUT, and how it ended. */
  datatype Run = Run(events: seq<Event>, end: End)

  function Before(events: seq<Event>, r: Run): Run {
    r.(events := events + r.events)
  }

  /** Calls the machine until it has used the input up or failed. */
  function Drive(cfg: Config, s: Dec, input: seq<byte>): (r: Run)
    requires cfg.blksize > 0 && Sane(s)
    ensures r.end.Wants? ==> Sane(r.end.s)
    decreases |input|, Rank(s.phase)
  {
    match Step(cfg, s, input)
    case Went(t, rest) => Drive(cfg, t, rest)
    case Yielded(ev, t, rest) => Before([ev], Drive(cfg, t, rest))
    case Waiting(t) => Run([], Wants(t))
    case Failed(f) => Run([], Broken(f))
  }

  /** What follows a first part of the input: nothing after a failure. */
  function Continue(cfg: Config, r: Run, input: seq<byte>): Run
    requires cfg.blksize > 0 && (r.end.Wants? ==> Sane(r.end.s))
  {
    if r.end.Wants? then Before(r.events, Drive(cfg, r.end.s, input)) else r
  }

  lemma {:induction false} DriveResumes(cfg: Config, s: Dec, a: seq<byte>, b: seq<byte>)
    requires cfg.blksize > 0 && Sane(s)
    ensures Drive(cfg, s, a + b) == Continue(cfg, Drive(cfg, s, a), b)
    decreases |a|, Rank(s.phase)
  {
    hide Step;
    StepResumes(cfg, s, a, b);
    match Step(cfg, s, a)
    case Went(t, rest) => DriveResumes(cfg, t, rest, b);
    case Yielded(ev, t, rest) =>
      DriveResumes(cfg, t, rest, b);
      var r := Drive(cfg, t, rest);
      if r.end.Wants? {
        assert [ev] + (r.events + Drive(cfg, r.end.s, b).events) == [ev] + r.events + Drive(cfg, r.end.s, b).events;
      }
    case _ =>
  }

  function DriveAll(cfg: Config, r: Run, chunks: seq<seq<byte>>): Run
    requires cfg.blksize > 0 && (r.end.Wants? ==> Sane(r.end.s))
    decreases |chunks|
  {
    if chunks == [] then r else DriveAll(cfg, Continue(cfg, r, chunks[0]), chunks[1..])
  }

  /** Chunking independence: however the input is cut, the statuses, the output bytes, and the
      acceptance or the error are those of one call with everything. */
  lemma {:induction false} ChunkingIrrelevant(cfg: Config, s: Dec, first: seq<byte>, chunks: seq<seq<byte>>)
    requires cfg.blksize > 0 && Sane(s)
    ensures DriveAll(cfg, Drive(cfg, s, first), chunks) == Drive(cfg, s, first + Flat(chunks))
    decreases |chunks|
  {
    hide Drive;
    if chunks == [] {
      assert first + Flat(chunks) == first;
    } else {
      DriveResumes(cfg, s, first, chunks[0]);
      ChunkingIrrelevant(cfg, s, first + chunks[0], chunks[1..]);
      assert first + chunks[0] + Flat(chunks[1..]) == first + Flat(chunks);
    }
  }

  // ----- what every run keeps, whatever the input

  /** The status that comes next: 0 for the window's start, 1 for its output, 2 for its end. */
  function Stage(s: Dec): nat {
    if 9 <= Rank(s.phase) < 13 then 1 else if s.phase.Finish? then 2 else 0
  }

  /** `k` statuses have been returned before. */
  ghost predicate Reached(s: Dec, k: nat) {
    && Sane(s) && Stage(s) == k % 3 && s.windowCount == k / 3
    && (9 <= Rank(s.phase) < 22 ==> s.currentWindow == s.windowCount)
    && (9 <= Rank(s.phase) < 18 ==> s.tgtlen <= HARDMAXWINSIZE)
  }

  /** Status number `k` of a run: the header is reported once, for the first window; then every
      window starts, is handed over and finishes.  No window is larger than the hard limit. */
  predicate Proper(k: nat, ev: Event) {
    match k % 3
    case 0 => ev == (if k == 0 then GotHeader else WinStart)
    case 1 => ev.Output? && |ev.bytes| <= HARDMAXWINSIZE
    case _ => ev == WinFinish
  }

  ghost predicate NextProper(n: Next, k: nat) {
    match n
    case Go(t) => Reached(t, k)
    case Yield(ev, t) => Proper(k, ev) && Reached(t, k + 1)
    case Fail(_) => true
  }

  lemma ActProper(cfg: Config, s: Dec, v: Value, k: nat)
    requires cfg.blksize > 0 && Reached(s, k)
    ensures NextProper(Act(cfg, s, v), k)
  {
    if s.phase.WinInd? || 20 <= Rank(s.phase) < 22 {
      WindowActProper(s, v, k);
    } else if 13 <= Rank(s.phase) < 20 {
      SizesActProper(s, v, k);
    } else if 9 <= Rank(s.phase) < 13 {
      SectionActProper(cfg, s, v, k);
    } else if s.phase.Finish? {
      assert k % 3 == 2 && (k + 1) % 3 == 0 && (k + 1) / 3 == k / 3 + 1;
    } else {
      HeaderActProper(s, v, k);
    }
  }

  lemma HeaderActProper(s: Dec, v: Value, k: nat)
    requires Reached(s, k) && 22 <= Rank(s.phase)
    ensures NextProper(HeaderAct(s, v), k)
  {
  }

  lemma WindowActProper(s: Dec, v: Value, k: nat)
    requires Reached(s, k) && (s.phase.WinInd? || 20 <= Rank(s.phase) < 22)
    ensures NextProper(WindowAct(s, v), k)
  {
  }

  lemma SizesActProper(s: Dec, v: Value, k: nat)
    requires Reached(s, k) && 13 <= Rank(s.phase) < 20
    ensures NextProper(SizesAct(s, v), k)
  {
    hide EncLength, BigEndian, Sane;
    assert k % 3 == 0 ==> (k + 1) % 3 == 1 && (k + 1) / 3 == k / 3 && (k / 3 == 0 <==> k == 0);
  }

  lemma SectionActProper(cfg: Config, s: Dec, v: Value, k: nat)
    requires cfg.blksize > 0 && Reached(s, k) && 9 <= Rank(s.phase) < 13
    ensures s.phase.Emit? ==> NextProper(EmitAct(cfg, s), k)
    ensures !s.phase.Emit? ==> NextProper(SectionAct(cfg, s, v), k)
  {
    hide Checksum, DecodeFrom, StartState;
    assert k % 3 == 1 && (k + 1) % 3 == 2 && (k + 1) / 3 == k / 3;
  }

  lemma StepProper(cfg: Config, s: Dec, input: seq<byte>, k: nat)
    requires cfg.blksize > 0 && Reached(s, k)
    ensures match Step(cfg, s, input)
            case Went(t, _) => Reached(t, k)
            case Yielded(ev, t, _) => Proper(k, ev) && Reached(t, k + 1)
            case Waiting(t) => Reached(t, k)
            case Failed(_) => true
  {
    match Reads(cfg, s) {
      case Nothing => ActProper(cfg, s, Absent, k);
      case OneByte => if input != [] { ActProper(cfg, s, Number(input[0]), k); }
      case Size => IntegerProper(cfg, s, s.part64, input, TWO64, k);
      case Offset => IntegerProper(cfg, s, s.part32, input, XOFF_LIMIT, k);
      case Fill(have, want) => FillProper(cfg, s, have, want, input, k);
      case Skip(want) =>
        var take := Min(Max(want - s.winbytes, 0), |input|);
        ActProper(cfg, s.(winbytes := s.winbytes + take), Absent, k);
    }
  }

  lemma IntegerProper(cfg: Config, s: Dec, part: nat, input: seq<byte>, limit: nat, k: nat)
    requires cfg.blksize > 0 && Reached(s, k)
    ensures match IntegerStep(cfg, s, part, input, limit)
            case Went(t, _) => Reached(t, k)
            case Yielded(ev, t, _) => Proper(k, ev) && Reached(t, k + 1)
            case Waiting(t) => Reached(t, k)
            case Failed(_) => true
  {
    hide Act, DecodeInteger;
    match DecodeInteger(part, input, limit)
    case Done(v, _) => ActProper(cfg, PartSaved(s, 0, limit), Number(v), k);
    case _ =>
  }

  lemma FillProper(cfg: Config, s: Dec, have: seq<byte>, want: nat, input: seq<byte>, k: nat)
    requires cfg.blksize > 0 && Reached(s, k) && !s.phase.WinInd?
    ensures match FillStep(cfg, s, have, want, input)
            case Went(t, _) => Reached(t, k)
            case Yielded(ev, t, _) => Proper(k, ev) && Reached(t, k + 1)
            case Waiting(t) => Reached(t, k)
            case Failed(_) => true
  {
    hide Act;
    var take := Min(Max(want - |have|, 0), |input|);
    ActProper(cfg, Saved(s, have + input[..take]).(winbytes := Count(s, take)), Filled(have + input[..take]), k);
  }

  /** The statuses are those that may come from the `k`-th on. */
  ghost predicate InOrder(events: seq<Event>, k: nat) {
    forall i :: 0 <= i < |events| ==> Proper(k + i, events[i])
  }

  lemma InOrderBefore(ev: Event, later: seq<Event>, k: nat)
    requires Proper(k, ev) && InOrder(later, k + 1)
    ensures InOrder([ev] + later, k)
  {
    forall i | 0 <= i < 1 + |later| ensures Proper(k + i, ([ev] + later)[i]) {
      if i > 0 { assert Proper(k + 1 + (i - 1), later[i - 1]); }
    }
  }

  /** Whatever bytes arrive, the statuses of a run come in their order and no output is larger than
      the hard limit on windows. */
  lemma {:induction false} RunProper(cfg: Config, s: Dec, input: seq<byte>, k: nat)
    requires cfg.blksize > 0 && Reached(s, k)
    ensures Sane(s) && InOrder(Drive(cfg, s, input).events, k)
    decreases |input|, Rank(s.phase)
  {
    hide Step, Reached, InOrder, Proper;
    ReachedIsSane(s, k);
    StepProper(cfg, s, input, k);
    match Step(cfg, s, input)
    case Went(t, rest) => RunProper(cfg, t, rest, k);
    case Yielded(ev, t, rest) =>
      RunProper(cfg, t, rest, k + 1);
      InOrderBefore(ev, Drive(cfg, t, rest).events, k);
    case _ => NoneInOrder(k);
  }

  lemma NoneInOrder(k: nat)
    ensures InOrder([], k)
  {
  }

  lemma ReachedIsSane(s: Dec, k: nat)
    requires Reached(s, k)
    ensures Sane(s)
  {
  }

  lemma StartIsReached()
    ensures Reached(Start(), 0) && Sane(Start())
  {
  }

  /** In particular for a whole file, cut in any way. */
  lemma FileProper(cfg: Config, first: seq<byte>, chunks: seq<seq<byte>>)
    requires cfg.blksize > 0
    ensures InOrder(DriveAll(cfg, Drive(cfg, Start(), first), chunks).events, 0)
  {
    hide *;
    StartIsReached();
    ChunkingIrrelevant(cfg, Start(), first, chunks);
    RunProper(cfg, Start(), first + Flat(chunks), 0);
  }

  // ----- xd3_decode_input itself

  datatype Status = Input | Event(ev: Event) | Error(f: Failure)

  /** The stream: the registers, and what is left of the caller's input. */
  class Stream {
    const cfg: Config
    var st: Dec
    var nextIn: seq<byte>

    constructor (cfg: Config)
      requires cfg.blksize > 0
      ensures this.cfg == cfg && st == Start() && nextIn == [] && Valid()
    {
      this.cfg, st, nextIn := cfg, Start(), [];
    }

    predicate Valid()
      reads this
    {
      cfg.blksize > 0 && Sane(st)
    }

    /** The machine runs until it has something to tell its caller; what it goes on to do from
        there is what one long run would do. */
    method DecodeInput() returns (status: Status)
      requires Valid()
      modifies this
      ensures Valid()
      ensures status.Input? ==> nextIn == [] && Drive(cfg, old(st), old(nextIn)) == Run([], Wants(st))
      ensures status.Event? ==> Drive(cfg, old(st), old(nextIn)) == Before([status.ev], Drive(cfg, st, nextIn))
      ensures status.Error? ==> Drive(cfg, old(st), old(nextIn)) == Run([], Broken(status.f))
    {
      hide Step, Sane;
      while true
        invariant Valid() && Drive(cfg, old(st), old(nextIn)) == Drive(cfg, st, nextIn)
        decreases |nextIn|, Rank(st.phase)
      {
        match Step(cfg, st, nextIn) {
          case Went(t, rest) => st, nextIn := t, rest;
          case Yielded(ev, t, rest) =>
            st, nextIn := t, rest;
            return Status.Event(ev);
          case Waiting(t) =>
            st, nextIn := t, [];
            return Status.Input;
          case Failed(f) => return Status.Error(f);
        }
      }
    }
  }
}
