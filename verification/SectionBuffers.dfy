/**
 The three sections of a window as the decoder holds them: read in place from the caller's buffer
 when all that is missing of them has arrived, gathered in buffers of the decoder's own when not.
 The caller may reuse its buffer once it is asked for more input, so nothing read in place may be
 left over at that point.
 */
module SectionBuffers {
  import opened Bytes
  import opened WindowFormat
  import opened StreamDecoder

  /** xd3_desect: `InPlace` when the section's pointer leads into the caller's buffer. */
  datatype Section = Section(size: nat, pos: nat, inPlace: bool, off: nat, copied: seq<byte>)

  /** What there is of a section, given what the caller's buffer holds now. */
  ghost function Got(sect: Section, next: seq<byte>): seq<byte> {
    if !sect.inPlace then sect.copied
    else if sect.off + sect.size <= |next| then next[sect.off..sect.off + sect.size]
    else []
  }

  predicate InSections(p: Phase) {
    p.DataSection? || p.InstSection? || p.AddrSection?
  }

  /** Steps until the sections are read, or the machine returns to its caller. */
  function ReadSections(cfg: Config, s: Dec, input: seq<byte>): StepResult
    requires cfg.blksize > 0 && Sane(s) && InSections(s.phase)
    decreases Rank(s.phase)
  {
    var r := Step(cfg, s, input);
    if r.Went? && InSections(r.s.phase) && Rank(r.s.phase) < Rank(s.phase) then ReadSections(cfg, r.s, r.rest) else r
  }

  /** The registers that reading the sections changes, and the whole state they are part of. */
  datatype Registers = Registers(phase: Phase, winbytes: nat, data: Sect, inst: Sect, addr: Sect)

  function Full(header: Dec, x: Registers): (s: Dec)
    ensures s.phase == x.phase && s.cpylen == header.cpylen && s.tgtlen == header.tgtlen && s.winInd == header.winInd
    ensures Need(s) == x.data.size + x.inst.size + x.addr.size
  {
    header.(phase := x.phase, winbytes := x.winbytes, data := x.data, inst := x.inst, addr := x.addr)
  }

  function ReadsOn(cfg: Config, header: Dec, x: Registers, input: seq<byte>): StepResult
    requires cfg.blksize > 0 && header.cpylen + header.tgtlen < TWO64 && InSections(x.phase)
  {
    ReadSections(cfg, Full(header, x), input)
  }

  /** All sections are read. */
  function Complete(cfg: Config, header: Dec, x: Registers, rest: seq<byte>): StepResult
    requires cfg.blksize > 0 && header.cpylen + header.tgtlen < TWO64 && x.phase.AddrSection?
  {
    Deliver(SectionAct(cfg, Full(header, x), Absent), rest)
  }

  datatype Return = Proceed | NeedInput | Finished | Refused(f: Failure)

  function AsStep(ret: Return, s: Dec, rest: seq<byte>): StepResult {
    match ret
    case Proceed => Went(s, rest)
    case NeedInput => Waiting(s)
    case Finished => Yielded(Output([]), s, rest)
    case Refused(f) => Failed(f)
  }

  class SectionStream {
    const cfg: Config
    var phase: Phase
    var winbytes: nat
    var data: Section
    var inst: Section
    var addr: Section
    var next: seq<byte>  // the caller's buffer; what is read in place is read from here
    var at: nat
    const header: Dec // the registers that reading the sections leaves alone

    constructor (cfg: Config, header: Dec, dataSize: nat, instSize: nat, addrSize: nat)
      requires cfg.blksize > 0 && header.cpylen + header.tgtlen < TWO64
      ensures Valid() && phase == DataSection && Input() == []
      ensures this.cfg == cfg && this.header == header
      ensures View() == Registers(DataSection, 0, Sect(dataSize, []), Sect(instSize, []), Sect(addrSize, []))
    {
      this.cfg, this.header := cfg, header;
      phase, winbytes, next, at := DataSection, 0, [], 0;
      data := Section(dataSize, 0, false, 0, []);
      inst := Section(instSize, 0, false, 0, []);
      addr := Section(addrSize, 0, false, 0, []);
    }

    /** Section number `k` when section number `now` is being read: complete once it is past, not
        begun before its turn.  It may be held in place only if `mayBorrow`. */
    ghost predicate Placed(sect: Section, k: nat, now: nat, mayBorrow: bool)
      reads this
    {
      && sect.pos <= sect.size && (k != now ==> sect.pos == 0)
      && (k >= now || !mayBorrow ==> !sect.inPlace)
      && (if sect.inPlace then sect.off + sect.size <= |next|
          else |sect.copied| == if k < now then sect.size else sect.pos)
    }

    ghost function Now(): nat
      reads this
    {
      if phase.DataSection? then 0 else if phase.InstSection? then 1 else 2
    }

    ghost predicate Counted()
      reads this
    {
      if cfg.skipWindow then phase.DataSection? && data.pos == 0 && winbytes <= Need()
      else
        winbytes == data.pos + inst.pos + addr.pos
                    + (if Now() > 0 then data.size else 0) + (if Now() > 1 then inst.size else 0)
    }

    function Need(): nat
      reads this
    {
      data.size + inst.size + addr.size
    }

    /** What holds while the sections are read; `mayBorrow` says that all that is missing is here. */
    ghost predicate Reading(mayBorrow: bool)
      reads this
    {
      && at <= |next| && cfg.blksize > 0 && header.cpylen + header.tgtlen < TWO64 && InSections(phase)
      && Placed(data, 0, Now(), mayBorrow) && Placed(inst, 1, Now(), mayBorrow) && Placed(addr, 2, Now(), mayBorrow)
      && Counted() && (mayBorrow ==> Need() - winbytes <= |next| - at)
    }

    /** What holds whenever the caller is asked for input: nothing is held in place. */
    ghost predicate Valid()
      reads this
    {
      Reading(false)
    }

    function Input(): seq<byte>
      requires at <= |next|
      reads this
    {
      next[at..]
    }

    /** The registers that these fields stand for. */
    ghost function View(): Registers
      reads this
    {
      Registers(phase, winbytes, Sect(data.size, Got(data, next)), Sect(inst.size, Got(inst, next)),
                Sect(addr.size, Got(addr, next)))
    }

    /** xd3_avail_input: the caller's buffer now holds something else.  Nothing is lost. */
    method AvailInput(input: seq<byte>)
      requires Valid() && Input() == []
      modifies this`next, this`at
      ensures Valid() && Input() == input && View() == old(View())
    {
      next, at := input, 0;
    }

    /** xd3_decode_section, on one of the sections. */
    method Take(sect: Section, copy: bool) returns (r: Section, done: bool, ghost took: nat)
      requires at <= |next| && sect.pos <= sect.size && !sect.inPlace && |sect.copied| == sect.pos
      requires !copy ==> sect.size - sect.pos <= |next| - at
      modifies this`at, this`winbytes
      ensures took == Min(sect.size - sect.pos, |next| - old(at)) && at == old(at) + took
      ensures winbytes == old(winbytes) + took
      ensures done == (sect.pos + took == sect.size) && r.size == sect.size
      ensures if r.inPlace then done && !copy && r.off + r.size <= |next|
              else |r.copied| == if done then r.size else r.pos
      ensures r.pos == if done then 0 else sect.pos + took
      ensures Got(r, next) == Got(sect, next) + next[old(at)..at]
    {
      r, took := sect, 0;
      if r.pos < r.size {
        if at == |next| {
          return r, false, 0;
        }
        var n: nat;
        if !copy && r.pos == 0 {
          n := r.size;
          r := r.(inPlace := true, off := at);
        } else {
          n := if r.size - r.pos < |next| - at then r.size - r.pos else |next| - at;
          r := r.(copied := r.copied + next[at..at + n]);
        }
        r := r.(pos := r.pos + n);
        at, winbytes, took := at + n, winbytes + n, n;
      }
      if r.pos < r.size {
        return r, false, took;
      }
      r, done := r.(pos := 0), true;
    }

    method ReadData(copy: bool) returns (done: bool, ghost took: nat)
      requires Reading(!copy) && phase.DataSection? && !cfg.skipWindow
      modifies this`winbytes, this`phase, this`data, this`at
      ensures took == Min(data.size - old(data.pos), |next| - old(at)) && at == old(at) + took
      ensures View() == old(View()).(phase := if done then InstSection else DataSection, winbytes := winbytes,
                                     data := Sect(old(data.size), old(View().data.bytes) + old(Input())[..took]))
      ensures winbytes == old(winbytes) + took && done == (old(data.pos) + took == data.size)
      ensures Reading(!copy) && (!done ==> copy && Input() == [])
    {
      data, done, took := Take(data, copy);
      assert old(Input())[..took] == next[old(at)..at];
      if done {
        phase := InstSection;
      }
    }

    method ReadInst(copy: bool) returns (done: bool, ghost took: nat)
      requires Reading(!copy) && phase.InstSection? && !cfg.skipWindow
      modifies this`winbytes, this`phase, this`inst, this`at
      ensures took == Min(inst.size - old(inst.pos), |next| - old(at)) && at == old(at) + took
      ensures View() == old(View()).(phase := if done then AddrSection else InstSection, winbytes := winbytes,
                                     inst := Sect(old(inst.size), old(View().inst.bytes) + old(Input())[..took]))
      ensures winbytes == old(winbytes) + took && done == (old(inst.pos) + took == inst.size)
      ensures Reading(!copy) && (!done ==> copy && Input() == [])
    {
      inst, done, took := Take(inst, copy);
      assert old(Input())[..took] == next[old(at)..at];
      if done {
        phase := AddrSection;
      }
    }

    /** xd3_decode_finish_window: what was gathered is dead. */
    method FinishWindow()
      modifies this`winbytes, this`phase, this`data, this`inst, this`addr
      ensures View() == Registers(Finish, 0, Sect(old(data.size), []), Sect(old(inst.size), []),
                                  Sect(old(addr.size), []))
    {
      winbytes, phase := 0, Finish;
      data := data.(pos := 0, inPlace := false, copied := []);
      inst := inst.(pos := 0, inPlace := false, copied := []);
      addr := addr.(pos := 0, inPlace := false, copied := []);
    }

    method ReadAddr(copy: bool) returns (done: bool, ghost took: nat)
      requires Reading(!copy) && phase.AddrSection? && !cfg.skipWindow
      modifies this`winbytes, this`addr, this`at
      ensures took == Min(addr.size - old(addr.pos), |next| - old(at)) && at == old(at) + took
      ensures View() == old(View()).(winbytes := winbytes,
                                     addr := Sect(old(addr.size), old(View().addr.bytes) + old(Input())[..took]))
      ensures winbytes == old(winbytes) + took && done == (old(addr.pos) + took == addr.size)
      ensures !done ==> Reading(false) && copy && Input() == []
    {
      addr, done, took := Take(addr, copy);
      assert old(Input())[..took] == next[old(at)..at];
    }

    /** Reading from `x` on has come this far. */
    ghost predicate ReadTo(done: bool, x: Registers, input: seq<byte>)
      requires cfg.blksize > 0 && header.cpylen + header.tgtlen < TWO64 && InSections(x.phase)
      reads this
    {
      && at <= |next|
      && (done ==> phase.AddrSection? && ReadsOn(cfg, header, x, input) == Complete(cfg, header, View(), Input()))
      && (!done ==> Reading(false) && Input() == []
                    && ReadsOn(cfg, header, x, input) == Waiting(Full(header, View())))
    }

    /** The switch over the sections falls through from one to the next. */
    method ReadThree(copy: bool) returns (done: bool)
      requires Reading(!copy) && !cfg.justHdr && !cfg.skipWindow && Need() < TWO64
      modifies this`winbytes, this`phase, this`data, this`inst, this`addr, this`at
      ensures ReadTo(done, old(View()), old(Input())) && Need() == old(Need())
    {
      hide ReadsOn, Complete, Full;
      if phase.DataSection? {
        ghost var took;
        ghost var x, input := View(), Input();
        done, took := ReadData(copy);
        DataReads(cfg, header, x, input, took);
        if !done { return; }
        assert Input() == input[took..];
      }
      done := ReadLastTwo(copy);
    }

    method ReadLastTwo(copy: bool) returns (done: bool)
      requires Reading(!copy) && !phase.DataSection? && !cfg.justHdr && !cfg.skipWindow && Need() < TWO64
      modifies this`winbytes, this`phase, this`inst, this`addr, this`at
      ensures ReadTo(done, old(View()), old(Input())) && Need() == old(Need())
    {
      hide ReadsOn, Complete, Full, Counted;
      ghost var took;
      ghost var x, input := View(), Input();
      if phase.InstSection? {
        done, took := ReadInst(copy);
        InstReads(cfg, header, x, input, took);
        if !done { return; }
        assert Input() == input[took..];
        x, input := View(), Input();
      }
      done, took := ReadAddr(copy);
      AddrReads(cfg, header, x, input, took);
      assert Input() == input[took..];
    }

    /** The sections are read; then the test that xd3_decode_setup_buffers begins with. */
    method ReadAndSetUp(copy: bool) returns (ret: Return)
      requires Reading(!copy) && !cfg.justHdr && !cfg.skipWindow && Need() < TWO64
      modifies this`winbytes, this`phase, this`data, this`inst, this`addr, this`at
      ensures at <= |next|
      ensures AsStep(ret, Full(header, View()), Input()) == ReadsOn(cfg, header, old(View()), old(Input()))
      ensures ret.NeedInput? ==> Valid() && Input() == []
    {
      hide ReadsOn, Complete, Full;
      var done := ReadThree(copy);
      if !done {
        return NeedInput;
      }
      CompleteMeans(cfg, header, View(), Input());
      if cfg.skipEmit {
        FinishWindow();
        return Finished;
      }
      if HasTarget(header) {
        return Refused(Bad(Unimplemented));
      }
      phase := Emit;
      return Proceed;
    }

    /** xd3_decode_sections: what DEC_DATA, DEC_INST and DEC_ADDR do. */
    method DecodeSections() returns (ret: Return)
      requires Valid()
      modifies this`winbytes, this`phase, this`data, this`inst, this`addr, this`at
      ensures at <= |next|
      ensures AsStep(ret, Full(header, View()), Input()) == ReadsOn(cfg, header, old(View()), old(Input()))
      ensures ret.NeedInput? ==> Valid() && Input() == []
    {
      hide ReadsOn, Complete, Full, Got;
      ghost var x, input := View(), Input();
      if cfg.justHdr {
        NotRead(cfg, header, x, input, 0);
        FinishWindow();
        return Finished;
      }
      if inst.size + addr.size >= TWO64 || inst.size + addr.size + data.size >= TWO64 {
        NotRead(cfg, header, x, input, 0);
        return Refused(Bad(Internal));
      }
      var more := Need() - winbytes;
      var take := if more < |next| - at then more else |next| - at;
      var copy := take != more;
      if cfg.skipWindow {
        NotRead(cfg, header, x, input, take);
        at, winbytes := at + take, winbytes + take;
        assert Input() == input[take..];
        if copy {
          return NeedInput;
        }
        FinishWindow();
        return Finished;
      }
      ret := ReadAndSetUp(copy);
    }
  }

  /** The cases in which the sections are not read. */
  lemma NotRead(cfg: Config, header: Dec, x: Registers, input: seq<byte>, take: nat)
    requires cfg.blksize > 0 && header.cpylen + header.tgtlen < TWO64 && InSections(x.phase)
    ensures var need := x.data.size + x.inst.size + x.addr.size;
            var finished := Registers(Finish, 0, x.data.(bytes := []), x.inst.(bytes := []), x.addr.(bytes := []));
            && (cfg.justHdr ==> ReadsOn(cfg, header, x, input) == Yielded(Output([]), Full(header, finished), input))
            && (!cfg.justHdr && need >= TWO64 ==> ReadsOn(cfg, header, x, input) == Failed(Bad(Internal)))
            && (!cfg.justHdr && need < TWO64 && cfg.skipWindow && x.winbytes <= need
                && take == Min(need - x.winbytes, |input|) ==>
                  ReadsOn(cfg, header, x, input)
                  == if x.winbytes + take < need then Waiting(Full(header, x.(winbytes := x.winbytes + take)))
                     else Yielded(Output([]), Full(header, finished), input[take..]))
  {
    hide Sane, WindowAct, HeaderAct, SizesAct, EmitAct, IntegerStep, FillStep, Min, AppHeader, HasAdler;
  }

  lemma CompleteMeans(cfg: Config, header: Dec, x: Registers, rest: seq<byte>)
    requires cfg.blksize > 0 && header.cpylen + header.tgtlen < TWO64 && x.phase.AddrSection?
    requires !cfg.justHdr && !cfg.skipWindow && x.data.size + x.inst.size + x.addr.size < TWO64
    ensures var finished := Registers(Finish, 0, x.data.(bytes := []), x.inst.(bytes := []), x.addr.(bytes := []));
            Complete(cfg, header, x, rest)
            == if cfg.skipEmit then Yielded(Output([]), Full(header, finished), rest)
               else if HasTarget(header) then Failed(Bad(Unimplemented))
               else Went(Full(header, x.(phase := Emit)), rest)
  {
  }

  /** A step in a section phase, when sections are really read. */
  lemma SectionStep(cfg: Config, s: Dec, sect: Sect, input: seq<byte>, took: nat)
    requires cfg.blksize > 0 && Sane(s) && !cfg.justHdr && !cfg.skipWindow && Need(s) < TWO64
    requires (s.phase.DataSection? && sect == s.data) || (s.phase.InstSection? && sect == s.inst)
             || (s.phase.AddrSection? && sect == s.addr)
    requires |sect.bytes| <= sect.size && took == Min(sect.size - |sect.bytes|, |input|)
    ensures var t := Saved(s, sect.bytes + input[..took]).(winbytes := s.winbytes + took);
            Step(cfg, s, input)
            == if |sect.bytes| + took < sect.size then Waiting(t)
               else Deliver(SectionAct(cfg, t, Absent), input[took..])
  {
    hide Sane, WindowAct, HeaderAct, SizesAct, EmitAct, IntegerStep, SkipStep;
  }

  /** Reading from the data section on. */
  lemma DataReads(cfg: Config, header: Dec, x: Registers, input: seq<byte>, took: nat)
    requires cfg.blksize > 0 && header.cpylen + header.tgtlen < TWO64 && !cfg.justHdr && !cfg.skipWindow
    requires x.data.size + x.inst.size + x.addr.size < TWO64 && x.phase.DataSection?
    requires |x.data.bytes| <= x.data.size && took == Min(x.data.size - |x.data.bytes|, |input|)
    ensures var t := x.(winbytes := x.winbytes + took, data := x.data.(bytes := x.data.bytes + input[..took]));
            ReadsOn(cfg, header, x, input)
            == if |x.data.bytes| + took < x.data.size then Waiting(Full(header, t))
               else ReadsOn(cfg, header, t.(phase := InstSection), input[took..])
  {
    hide Step;
    SectionStep(cfg, Full(header, x), x.data, input, took);
  }

  lemma InstReads(cfg: Config, header: Dec, x: Registers, input: seq<byte>, took: nat)
    requires cfg.blksize > 0 && header.cpylen + header.tgtlen < TWO64 && !cfg.justHdr && !cfg.skipWindow
    requires x.data.size + x.inst.size + x.addr.size < TWO64 && x.phase.InstSection?
    requires |x.inst.bytes| <= x.inst.size && took == Min(x.inst.size - |x.inst.bytes|, |input|)
    ensures var t := x.(winbytes := x.winbytes + took, inst := x.inst.(bytes := x.inst.bytes + input[..took]));
            ReadsOn(cfg, header, x, input)
            == if |x.inst.bytes| + took < x.inst.size then Waiting(Full(header, t))
               else ReadsOn(cfg, header, t.(phase := AddrSection), input[took..])
  {
    hide Step;
    SectionStep(cfg, Full(header, x), x.inst, input, took);
  }

  lemma AddrReads(cfg: Config, header: Dec, x: Registers, input: seq<byte>, took: nat)
    requires cfg.blksize > 0 && header.cpylen + header.tgtlen < TWO64 && !cfg.justHdr && !cfg.skipWindow
    requires x.data.size + x.inst.size + x.addr.size < TWO64 && x.phase.AddrSection?
    requires |x.addr.bytes| <= x.addr.size && took == Min(x.addr.size - |x.addr.bytes|, |input|)
    ensures var t := x.(winbytes := x.winbytes + took, addr := x.addr.(bytes := x.addr.bytes + input[..took]));
            ReadsOn(cfg, header, x, input)
            == if |x.addr.bytes| + took < x.addr.size then Waiting(Full(header, t))
               else Complete(cfg, header, t, input[took..])
  {
    hide Step;
    SectionStep(cfg, Full(header, x), x.addr, input, took);
  }
}
