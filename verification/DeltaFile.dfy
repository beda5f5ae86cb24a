/**
 The file around the windows: what xd3_emit_hdr writes before the sections of each window, and the
 proof that the decoder, fed with the file in pieces of any sizes, reports exactly these windows.
 */
module DeltaFile {
  import opened Bytes
  import opened Integers
  import opened Adler32
  import opened AddressCache
  import opened CodeTable
  import opened OverlapCopy
  import opened WindowFormat
  import opened StreamDecoder

  /** A window as the encoder leaves it: the source window used, if any, the target bytes, and the
      three sections. */
  datatype EncWindow = EncWindow(srcbase: nat, srclen: nat, target: seq<byte>,
                                 data: seq<byte>, inst: seq<byte>, addr: seq<byte>)

  lemma FourDigits(x: nat)
    ensures 256 * (256 * (256 * (x / 0x100_0000) + x / 0x1_0000 % 256) + x / 0x100 % 256) + x % 256 == x
  {
    assert x / 0x1_0000 == x / 0x100 / 0x100 && x / 0x100_0000 == x / 0x1_0000 / 0x100;
  }

  function BigEndian4(x: nat): (r: seq<byte>)
    requires x < TWO32
    ensures |r| == 4 && BigEndian(r) == x
  {
    var r: seq<byte> := [x / 0x100_0000, x / 0x1_0000 % 256, x / 0x100 % 256, x % 256];
    FourDigits(x);
    BigEndianOf(r[..1], r[1]);
    BigEndianOf(r[..2], r[2]);
    BigEndianOf(r[..3], r[3]);
    assert r[..1] + [r[1]] == r[..2] && r[..2] + [r[2]] == r[..3] && r[..3] + [r[3]] == r;
    assert r[..1] == [r[0]] && [r[0]][..0] == [];
    r
  }

  lemma BigEndianOf(s: seq<byte>, b: byte)
    ensures BigEndian(s + [b]) == 256 * BigEndian(s) + b
  {
    assert (s + [b])[..|s|] == s;
  }

  function AppHeaderBytes(app: Option<seq<byte>>): seq<byte> {
    if app.Some? then Encoding(|app.value|) + app.value else []
  }

  function FileHeader(app: Option<seq<byte>>): seq<byte> {
    [0xd6, 0xc3, 0xc4, 0, if app.Some? then 4 else 0] + AppHeaderBytes(app)
  }

  function Indicator(w: EncWindow, adler: bool): byte {
    (if w.srclen > 0 then 1 else 0) + (if adler then 4 else 0)
  }

  function CopyWindow(w: EncWindow): seq<byte> {
    if w.srclen > 0 then Encoding(w.srclen) + Encoding(w.srcbase) else []
  }

  function EncLenOf(w: EncWindow, adler: bool): nat {
    EncLength(|w.target|, |w.data|, |w.inst|, |w.addr|, adler)
  }

  function Sizes(w: EncWindow, adler: bool): seq<byte> {
    Encoding(EncLenOf(w, adler)) + Encoding(|w.target|) + [0]
    + Encoding(|w.data|) + Encoding(|w.inst|) + Encoding(|w.addr|)
  }

  function Check(w: EncWindow, adler: bool): seq<byte>
  {
    if adler then ChecksumFits(w.target); BigEndian4(Checksum(1, w.target)) else []
  }

  function WindowHeader(w: EncWindow, adler: bool): seq<byte> {
    [Indicator(w, adler)] + CopyWindow(w) + Sizes(w, adler) + Check(w, adler)
  }

  function Sections(w: EncWindow): seq<byte> {
    w.data + w.inst + w.addr
  }

  lemma ChecksumFits(s: seq<byte>)
    ensures Checksum(1, s) < TWO32
  {
  }

  /** xd3_emit_hdr: what it appends to the header section. */
  method EmitHdr(currentWindow: nat, app: Option<seq<byte>>, w: EncWindow, adler: bool) returns (r: seq<byte>)
    requires w.srclen < TWO64 && w.srcbase < XOFF_LIMIT && |w.target| < TWO64
    requires |w.data| < TWO64 && |w.inst| < TWO64 && |w.addr| < TWO64 && (app.Some? ==> |app.value| < TWO64)
    ensures r == (if currentWindow == 0 then FileHeader(app) else []) + WindowHeader(w, adler)
  {
    hide WindowHeader;
    r := [];
    if currentWindow == 0 {
      r := [0xd6, 0xc3, 0xc4, 0] + [if app.Some? then 4 else 0];
      if app.Some? {
        var n := EmitInteger(|app.value|);
        r := r + (n + app.value);
      }
    }
    var rest := EmitWindowHeader(w, adler);
    r := r + rest;
  }

  method EmitWindowHeader(w: EncWindow, adler: bool) returns (r: seq<byte>)
    requires w.srclen < TWO64 && w.srcbase < XOFF_LIMIT && |w.target| < TWO64
    requires |w.data| < TWO64 && |w.inst| < TWO64 && |w.addr| < TWO64
    ensures r == WindowHeader(w, adler)
  {
    hide Sizes, BigEndian4;
    r := [(if w.srclen > 0 then 1 else 0) + (if adler then 4 else 0)];
    if w.srclen > 0 {
      var n := EmitInteger(w.srclen);
      var m := EmitInteger(w.srcbase);
      r := r + (n + m);
    }
    var sizes := EmitSizes(w, adler);
    r := r + sizes;
    if adler {
      var a32 := Adler32.Adler32(1, w.target);
      ChecksumFits(w.target);
      r := r + BigEndian4(a32);
    }
  }

  method EmitSizes(w: EncWindow, adler: bool) returns (r: seq<byte>)
    requires |w.target| < TWO64 && |w.data| < TWO64 && |w.inst| < TWO64 && |w.addr| < TWO64
    ensures r == Sizes(w, adler)
  {
    r := EmitInteger(EncLenOf(w, adler));
    var n := EmitInteger(|w.target|);
    r := r + n + [0];
    n := EmitInteger(|w.data|);
    r := r + n;
    n := EmitInteger(|w.inst|);
    r := r + n;
    n := EmitInteger(|w.addr|);
    r := r + n;
  }

  // ----- reading the file back

  /** A window that the decoder can be asked to reproduce. */
  ghost predicate Decodable(cfg: Config, w: EncWindow)
    requires cfg.blksize > 0
  {
    && |w.target| <= HARDMAXWINSIZE && w.srclen + |w.target| < TWO64
    && w.srcbase + w.srclen < XOFF_LIMIT && (w.srclen == 0 ==> w.srcbase == 0)
    && |w.data| + |w.inst| + |w.addr| < TWO64
    && (w.srclen > 0 ==> cfg.source.Some?)
    && DecodeWindow(Window(if cfg.source.Some? then cfg.source.value else [], cfg.blksize, w.srcbase, w.srclen,
                           |w.target|),
                    w.data, w.inst, w.addr) == Ok(w.target)
  }

  /** Without a copy window it does not matter which source there is: the header need not tell. */
  lemma {:induction false} NoSourceNeeded(w: Window, v: Window, st: DecState)
    requires w.Valid() && v.Valid() && w.cpylen == v.cpylen == 0 && w.tgtlen == v.tgtlen && Aligned(w, st)
    ensures DecodeFrom(w, st) == DecodeFrom(v, st)
    decreases |st.inst|
  {
    if st.inst != [] {
      OneWithoutSource(w, v, st);
      if DecodeOne(w, st).Ok? {
        NoSourceNeeded(w, v, DecodeOne(w, st).value);
      }
    }
  }

  lemma OneWithoutSource(w: Window, v: Window, st: DecState)
    requires w.Valid() && v.Valid() && w.cpylen == v.cpylen == 0 && w.tgtlen == v.tgtlen && Aligned(w, st)
             && st.inst != []
    ensures DecodeOne(w, st) == DecodeOne(v, st)
  {
    hide ParseHalf, ExecHalf, Row;
    RowIsRow(st.inst[0]);
    var row := Row(st.inst[0]);
    var s0 := st.(inst := st.inst[1..]);
    ParseWithoutSource(w, v, s0, row.type1, row.size1);
    if ParseHalf(w, s0, row.type1, row.size1).Ok? {
      var (h1, st1) := ParseHalf(w, s0, row.type1, row.size1).value;
      if row.type2 == NOOP {
        ExecWithoutSource(w, v, st1, h1);
      } else {
        ParseWithoutSource(w, v, st1, row.type2, row.size2);
        if ParseHalf(w, st1, row.type2, row.size2).Ok? {
          var (h2, st2) := ParseHalf(w, st1, row.type2, row.size2).value;
          ExecWithoutSource(w, v, st2, h1);
          if ExecHalf(w, st2, h1).Ok? {
            ParsedAligned(w, s0, h1, st1);
            ParsedAligned(w, st1, h2, st2);
            ExecWithoutSource(w, v, ExecHalf(w, st2, h1).value, h2);
          }
        }
      }
    }
  }

  lemma ParseWithoutSource(w: Window, v: Window, st: DecState, typ: nat, size: nat)
    requires w.Valid() && v.Valid() && w.cpylen == v.cpylen == 0 && w.tgtlen == v.tgtlen
    requires st.cache.Valid() && typ < CPY + MODES
    ensures ParseHalf(w, st, typ, size) == ParseHalf(v, st, typ, size)
  {
    hide ReadInteger, DecodeAddress;
  }

  lemma ExecWithoutSource(w: Window, v: Window, st: DecState, h: HInst)
    requires w.Valid() && v.Valid() && w.cpylen == v.cpylen == 0 && w.tgtlen == v.tgtlen && h.typ != NOOP
    requires |st.out| + h.size <= w.tgtlen ==> Reachable(w, st.out, h)
    ensures ExecHalf(w, st, h) == ExecHalf(v, st, h)
  {
    hide CopyBytes, Repeat;
  }

  /** What the encoder has finished can be written: the source window goes into the header only if
      it is not empty, and then the decoder does without it. */
  lemma FinishedIsDecodable(cfg: Config, w: Window, target: seq<byte>, data: seq<byte>, inst: seq<byte>,
                            addr: seq<byte>)
    requires cfg.blksize == w.blksize && w.Valid() && |target| == w.tgtlen <= HARDMAXWINSIZE
    requires w.cpyoff + w.cpylen < XOFF_LIMIT && |data| + |inst| + |addr| < TWO64
    requires w.cpylen > 0 ==> cfg.source == Some(w.source)
    requires DecodeWindow(w, data, inst, addr) == Ok(target)
    ensures Decodable(cfg, EncWindow(if w.cpylen > 0 then w.cpyoff else 0, w.cpylen, target, data, inst, addr))
  {
    if w.cpylen == 0 {
      var v := Window(if cfg.source.Some? then cfg.source.value else [], cfg.blksize, 0, 0, w.tgtlen);
      NoSourceNeeded(w, v, StartState(w, data, inst, addr));
    }
  }

  /** Nothing is left half read, and the buffers are empty. */
  predicate Clean(s: Dec) {
    s.part64 == s.part32 == s.winbytes == 0 && s.data.bytes == s.inst.bytes == s.addr.bytes == []
  }

  predicate Emits(cfg: Config) {
    cfg.blksize > 0 && !cfg.justHdr && !cfg.skipWindow && !cfg.skipEmit
  }

  // ----- the parts of a window, one after the other

  lemma WinIndRead(cfg: Config, s: Dec, ind: byte, rest: seq<byte>)
    requires cfg.blksize > 0 && Sane(s) && s.phase.WinInd? && ind < 8 && s.winstart + s.tgtlen < XOFF_LIMIT
    ensures var t := s.(phase := CpyLen, winInd := ind, currentWindow := s.windowCount,
                        winstart := s.winstart + s.tgtlen, cpylen := 0, cpyoff := 0, cksum := []);
            Sane(t) && Drive(cfg, s, [ind] + rest) == Drive(cfg, t, rest)
  {
    hide Drive, Step;
    ByteRead(cfg, s, ind, rest);
  }

  /** A phase that reads one byte. */
  lemma ByteRead(cfg: Config, s: Dec, ind: byte, rest: seq<byte>)
    requires cfg.blksize > 0 && Sane(s) && Reads(cfg, s) == OneByte && Act(cfg, s, Number(ind)).Go?
    ensures Sane(Act(cfg, s, Number(ind)).s)
    ensures Drive(cfg, s, [ind] + rest) == Drive(cfg, Act(cfg, s, Number(ind)).s, rest)
  {
    hide Act;
    assert ([ind] + rest)[1..] == rest;
  }

  /** A phase that reads a size and then goes on to `t`. */
  lemma SizeRead(cfg: Config, s: Dec, t: Dec, n: nat, rest: seq<byte>)
    requires cfg.blksize > 0 && Sane(s) && s.part64 == 0 && Reads(cfg, s) == Size && n < TWO64
    requires Act(cfg, s, Number(n)) == Go(t)
    ensures Sane(t) && Drive(cfg, s, Encoding(n) + rest) == Drive(cfg, t, rest)
  {
    hide Act;
    EmitThenRead(n, rest, TWO64);
    DecodeAgreesWithRead(0, Encoding(n) + rest, TWO64);
    assert PartSaved(s, 0, TWO64) == s;
  }

  lemma OffsetRead(cfg: Config, s: Dec, t: Dec, n: nat, rest: seq<byte>)
    requires cfg.blksize > 0 && Sane(s) && s.part32 == 0 && Reads(cfg, s) == Offset && n < XOFF_LIMIT
    requires Act(cfg, s, Number(n)) == Go(t)
    ensures Sane(t) && Drive(cfg, s, Encoding(n) + rest) == Drive(cfg, t, rest)
  {
    hide Act;
    EmitThenRead(n, rest, XOFF_LIMIT);
    DecodeAgreesWithRead(0, Encoding(n) + rest, XOFF_LIMIT);
    assert PartSaved(s, 0, XOFF_LIMIT) == s;
  }

  /** A phase that reads nothing. */
  lemma NothingRead(cfg: Config, s: Dec, n: Next, input: seq<byte>)
    requires cfg.blksize > 0 && Sane(s) && Reads(cfg, s) == Nothing && n == Act(cfg, s, Absent) && !n.Fail?
    ensures Sane(n.s) && Drive(cfg, s, input) == Onwards(cfg, n, input)
  {
    hide Act;
  }

  /** The run that goes on from what a phase led to. */
  function Onwards(cfg: Config, n: Next, rest: seq<byte>): Run
    requires cfg.blksize > 0 && !n.Fail? && Sane(n.s)
  {
    if n.Yield? then Before([n.ev], Drive(cfg, n.s, rest)) else Drive(cfg, n.s, rest)
  }

  /** A phase that reads a given number of bytes at once and then acts on them. */
  lemma BytesRead(cfg: Config, s: Dec, n: Next, bytes: seq<byte>, rest: seq<byte>)
    requires cfg.blksize > 0 && Sane(s) && Reads(cfg, s) == Fill([], |bytes|)
    requires n == Act(cfg, Saved(s, bytes).(winbytes := Count(s, |bytes|)), Filled(bytes)) && !n.Fail?
    ensures Sane(n.s) && Drive(cfg, s, bytes + rest) == Onwards(cfg, n, rest)
  {
    assert !s.phase.WinInd?;
    hide Act, Saved, Count, Reads;
    var input := bytes + rest;
    assert [] + input[..|bytes|] == bytes && input[|bytes|..] == rest;
    assert Step(cfg, s, input) == FillStep(cfg, s, [], |bytes|, input);
    assert Step(cfg, s, input) == Deliver(n, rest);
  }

  lemma CopyWindowRead(cfg: Config, s: Dec, w: EncWindow, adler: bool, rest: seq<byte>)
    requires cfg.blksize > 0 && Sane(s) && s.phase.CpyLen? && s.part64 == s.part32 == 0 && Decodable(cfg, w)
    requires s.winInd == Indicator(w, adler) && s.cpylen == s.cpyoff == 0
    ensures var t := s.(phase := EncLen, cpylen := w.srclen, cpyoff := w.srcbase);
            Sane(t) && Drive(cfg, s, CopyWindow(w) + rest) == Drive(cfg, t, rest)
  {
    hide Drive, Step, EmitAct, HeaderAct, SectionAct, SizesAct, DecodeWindow, Encoding;
    var t := s.(phase := EncLen, cpylen := w.srclen, cpyoff := w.srcbase);
    var mid := s.(phase := CpyOff, cpylen := w.srclen);
    if w.srclen > 0 {
      var more := Encoding(w.srcbase) + rest;
      assert CopyWindow(w) + rest == Encoding(w.srclen) + more;
      SizeRead(cfg, s, mid, w.srclen, more);
      OffsetRead(cfg, mid, t, w.srcbase, rest);
    } else {
      assert CopyWindow(w) + rest == rest;
      NothingRead(cfg, s, Go(mid), rest);
      NothingRead(cfg, mid, Go(t), rest);
    }
  }

  lemma DelIndRead(cfg: Config, s: Dec, rest: seq<byte>)
    requires cfg.blksize > 0 && Sane(s) && s.phase.DelInd?
    ensures var t := s.(delInd := 0, phase := DataLen);
            Sane(t) && Drive(cfg, s, [0] + rest) == Drive(cfg, t, rest)
  {
    hide Drive, Step;
    ByteRead(cfg, s, 0, rest);
  }

  lemma SizesRead(cfg: Config, s: Dec, w: EncWindow, adler: bool, rest: seq<byte>)
    requires cfg.blksize > 0 && Sane(s) && s.phase.EncLen? && s.part64 == 0 && Decodable(cfg, w)
    requires s.cpylen == w.srclen && s.data.bytes == s.inst.bytes == s.addr.bytes == []
    ensures var t := s.(phase := Cksum, enclen := EncLenOf(w, adler), tgtlen := |w.target|, delInd := 0,
                        data := Sect(|w.data|, []), inst := Sect(|w.inst|, []), addr := Sect(|w.addr|, []));
            Sane(t) && Drive(cfg, s, Sizes(w, adler) + rest) == Drive(cfg, t, rest)
  {
    hide Drive, Step, EmitAct, HeaderAct, SectionAct, WindowAct, DecodeWindow, Encoding, EncLength;
    var r5 := Encoding(|w.addr|) + rest;
    var r4 := Encoding(|w.inst|) + r5;
    var r3 := Encoding(|w.data|) + r4;
    var r2 := [0] + r3;
    var r1 := Encoding(|w.target|) + r2;
    assert Sizes(w, adler) + rest == Encoding(EncLenOf(w, adler)) + r1;
    var s1 := s.(phase := TgtLen, enclen := EncLenOf(w, adler));
    SizeRead(cfg, s, s1, EncLenOf(w, adler), r1);
    var s2 := s1.(phase := DelInd, tgtlen := |w.target|);
    SizeRead(cfg, s1, s2, |w.target|, r2);
    DelIndRead(cfg, s2, r3);
    var s3 := s2.(phase := DataLen, delInd := 0);
    SectionSizesRead(cfg, s3, w, rest);
  }

  lemma SectionSizesRead(cfg: Config, s: Dec, w: EncWindow, rest: seq<byte>)
    requires cfg.blksize > 0 && Sane(s) && s.phase.DataLen? && s.part64 == 0
    requires |w.data| + |w.inst| + |w.addr| < TWO64
    requires s.data.bytes == s.inst.bytes == s.addr.bytes == []
    ensures var t := s.(phase := Cksum, data := Sect(|w.data|, []), inst := Sect(|w.inst|, []),
                        addr := Sect(|w.addr|, []));
            && Sane(t)
            && Drive(cfg, s, Encoding(|w.data|) + (Encoding(|w.inst|) + (Encoding(|w.addr|) + rest)))
              == Drive(cfg, t, rest)
  {
    hide Drive, Step, EmitAct, HeaderAct, SectionAct, WindowAct, Encoding;
    var s4 := s.(phase := InstLen, data := Sect(|w.data|, []));
    SizeRead(cfg, s, s4, |w.data|, Encoding(|w.inst|) + (Encoding(|w.addr|) + rest));
    var s5 := s4.(phase := AddrLen, inst := Sect(|w.inst|, []));
    SizeRead(cfg, s4, s5, |w.inst|, Encoding(|w.addr|) + rest);
    SizeRead(cfg, s5, s5.(phase := Cksum, addr := Sect(|w.addr|, [])), |w.addr|, rest);
  }

  function AfterCheck(s: Dec, w: EncWindow, adler: bool): Dec {
    if adler then
      ChecksumFits(w.target);
      s.(phase := DataSection, cksum := BigEndian4(Checksum(1, w.target)), adler := Checksum(1, w.target))
    else s.(phase := DataSection)
  }

  lemma CheckRead(cfg: Config, s: Dec, w: EncWindow, adler: bool, rest: seq<byte>)
    requires cfg.blksize > 0 && Sane(s) && s.phase.Cksum? && s.cksum == [] && s.winInd == Indicator(w, adler)
    requires s.enclen == EncLenOf(w, adler) && s.tgtlen == |w.target|
    requires s.data.size == |w.data| && s.inst.size == |w.inst| && s.addr.size == |w.addr|
    ensures var t := AfterCheck(s, w, adler);
            && Sane(t)
            && Drive(cfg, s, Check(w, adler) + rest)
               == Before([if s.currentWindow == 0 then GotHeader else WinStart], Drive(cfg, t, rest))
  {
    hide Drive, Step, EmitAct, HeaderAct, SectionAct, WindowAct, EncLength, BigEndian4;
    var n := Yield(if s.currentWindow == 0 then GotHeader else WinStart, AfterCheck(s, w, adler));
    if adler {
      BytesRead(cfg, s, n, Check(w, adler), rest);
    } else {
      assert Check(w, adler) + rest == rest;
      NothingRead(cfg, s, n, rest);
    }
  }

  function Gathered(s: Dec, w: EncWindow): Dec {
    s.(phase := Emit, winbytes := |w.data| + |w.inst| + |w.addr|,
       data := Sect(|w.data|, w.data), inst := Sect(|w.inst|, w.inst), addr := Sect(|w.addr|, w.addr))
  }

  lemma SectionsRead(cfg: Config, s: Dec, w: EncWindow, rest: seq<byte>)
    requires Emits(cfg) && Sane(s) && s.phase.DataSection? && s.winbytes == 0 && |w.data| + |w.inst| + |w.addr| < TWO64
    requires s.data == Sect(|w.data|, []) && s.inst == Sect(|w.inst|, []) && s.addr == Sect(|w.addr|, [])
    requires !HasTarget(s)
    ensures Sane(Gathered(s, w))
    ensures Drive(cfg, s, Sections(w) + rest) == Drive(cfg, Gathered(s, w), rest)
  {
    hide Drive, Step, EmitAct, HeaderAct, WindowAct, SizesAct;
    assert Sections(w) + rest == w.data + (w.inst + (w.addr + rest));
    var s1 := s.(phase := InstSection, winbytes := |w.data|, data := Sect(|w.data|, w.data));
    BytesRead(cfg, s, Go(s1), w.data, w.inst + (w.addr + rest));
    var s2 := s1.(phase := AddrSection, winbytes := |w.data| + |w.inst|, inst := Sect(|w.inst|, w.inst));
    BytesRead(cfg, s1, Go(s2), w.inst, w.addr + rest);
    BytesRead(cfg, s2, Go(Gathered(s, w)), w.addr, rest);
  }

  function Emptied(s: Dec): Dec {
    s.(phase := WinInd, winbytes := 0, windowCount := s.windowCount + 1,
       data := s.data.(bytes := []), inst := s.inst.(bytes := []), addr := s.addr.(bytes := []))
  }

  lemma WindowDecoded(cfg: Config, s: Dec, w: EncWindow, adler: bool, rest: seq<byte>)
    requires Emits(cfg) && Sane(s) && s.phase.Emit? && Decodable(cfg, w)
    requires s.winInd == Indicator(w, adler) && s.cpylen == w.srclen && s.cpyoff == w.srcbase && s.tgtlen == |w.target|
    requires s.data.bytes == w.data && s.inst.bytes == w.inst && s.addr.bytes == w.addr
    requires adler ==> s.adler == Checksum(1, w.target)
    ensures Sane(Emptied(s)) && Drive(cfg, s, rest)
            == Before([Output(w.target), WinFinish], Drive(cfg, Emptied(s), rest))
  {
    hide Drive, Step, HeaderAct, WindowAct, SizesAct, SectionAct, DecodeWindow, Checksum;
    var t := Emptied(s).(phase := Finish, windowCount := s.windowCount);
    NothingRead(cfg, s, Yield(Output(w.target), t), rest);
    NothingRead(cfg, t, Yield(WinFinish, Emptied(s)), rest);
    var run := Drive(cfg, Emptied(s), rest);
    assert [Output(w.target)] + ([WinFinish] + run.events) == [Output(w.target), WinFinish] + run.events;
  }

  // ----- whole windows, whole files

  function WindowBytes(w: EncWindow, adler: bool): seq<byte> {
    WindowHeader(w, adler) + Sections(w)
  }

  function WindowEvents(k: nat, w: EncWindow): seq<Event> {
    [if k == 0 then GotHeader else WinStart, Output(w.target), WinFinish]
  }

  /** Between windows. */
  predicate AtWindow(s: Dec, k: nat) {
    s.phase.WinInd? && Clean(s) && s.windowCount == k
  }

  lemma WindowRead(cfg: Config, s: Dec, w: EncWindow, adler: bool, rest: seq<byte>) returns (t: Dec)
    requires Emits(cfg) && Sane(s) && AtWindow(s, s.windowCount) && Decodable(cfg, w)
    requires s.winstart + s.tgtlen < XOFF_LIMIT
    ensures Sane(t) && AtWindow(t, s.windowCount + 1)
    ensures t.winstart == s.winstart + s.tgtlen && t.tgtlen == |w.target|
    ensures Drive(cfg, s, WindowBytes(w, adler) + rest)
            == Before(WindowEvents(s.windowCount, w), Drive(cfg, t, rest))
  {
    hide Drive, DecodeWindow, EncLenOf, Sizes, Check, CopyWindow, Checksum, Sane, Sections;
    var r4 := Sections(w) + rest;
    var r3 := Check(w, adler) + r4;
    var r2 := Sizes(w, adler) + r3;
    var r1 := CopyWindow(w) + r2;
    assert WindowBytes(w, adler) + rest == [Indicator(w, adler)] + r1;
    WinIndRead(cfg, s, Indicator(w, adler), r1);
    var s1 := s.(phase := CpyLen, winInd := Indicator(w, adler), currentWindow := s.windowCount,
                 winstart := s.winstart + s.tgtlen, cpylen := 0, cpyoff := 0, cksum := []);
    CopyWindowRead(cfg, s1, w, adler, r2);
    var s2 := s1.(phase := EncLen, cpylen := w.srclen, cpyoff := w.srcbase);
    SizesRead(cfg, s2, w, adler, r3);
    var s3 := s2.(phase := Cksum, enclen := EncLenOf(w, adler), tgtlen := |w.target|, delInd := 0,
                  data := Sect(|w.data|, []), inst := Sect(|w.inst|, []), addr := Sect(|w.addr|, []));
    CheckRead(cfg, s3, w, adler, r4);
    var s4 := AfterCheck(s3, w, adler);
    SectionsRead(cfg, s4, w, rest);
    var s5 := Gathered(s4, w);
    WindowDecoded(cfg, s5, w, adler, rest);
    t := Emptied(s5);
    var run := Drive(cfg, t, rest);
    var first := [if s.windowCount == 0 then GotHeader else WinStart];
    assert first + ([Output(w.target), WinFinish] + run.events) == WindowEvents(s.windowCount, w) + run.events;
  }

  lemma HdrIndRead(cfg: Config, s: Dec, ind: byte, rest: seq<byte>)
    requires cfg.blksize > 0 && Sane(s) && s.phase.HdrInd? && ind < 8
    ensures Drive(cfg, s, [ind] + rest) == Drive(cfg, s.(phase := SecondId, hdrInd := ind), rest)
  {
    hide Drive, Step;
    ByteRead(cfg, s, ind, rest);
  }

  /** No secondary compressor and no code table are announced: nothing is read. */
  lemma DefaultsRead(cfg: Config, s: Dec, rest: seq<byte>)
    requires cfg.blksize > 0 && s.phase.SecondId? && (s.hdrInd == 0 || s.hdrInd == 4)
    ensures Drive(cfg, s, rest) == Drive(cfg, s.(phase := AppLen), rest)
  {
    hide Drive, Step, EmitAct, WindowAct, SectionAct, SizesAct;
    NothingRead(cfg, s, Go(s.(phase := TabLen)), rest);
    NothingRead(cfg, s.(phase := TabLen), Go(s.(phase := Near)), rest);
    NothingRead(cfg, s.(phase := Near), Go(s.(phase := Same)), rest);
    NothingRead(cfg, s.(phase := Same), Go(s.(phase := TabDat)), rest);
    NothingRead(cfg, s.(phase := TabDat), Go(s.(phase := AppLen)), rest);
  }

  lemma AppHeaderRead(cfg: Config, s: Dec, app: Option<seq<byte>>, rest: seq<byte>) returns (t: Dec)
    requires cfg.blksize > 0 && s.phase.AppLen? && s.part64 == 0 && s.app == []
    requires s.hdrInd == (if app.Some? then 4 else 0) && (app.Some? ==> |app.value| < TWO64 - 1)
    ensures t == s.(phase := WinInd, appsz := t.appsz, app := t.app)
    ensures Sane(t) && Drive(cfg, s, AppHeaderBytes(app) + rest) == Drive(cfg, t, rest)
  {
    hide Drive, Step, EmitAct, WindowAct, SectionAct, SizesAct, Encoding;
    if app.Some? {
      assert AppHeaderBytes(app) + rest == Encoding(|app.value|) + (app.value + rest);
      var mid := s.(phase := AppDat, appsz := |app.value|);
      SizeRead(cfg, s, mid, |app.value|, app.value + rest);
      t := mid.(phase := WinInd, app := app.value);
      BytesRead(cfg, mid, Go(t), app.value, rest);
    } else {
      assert AppHeaderBytes(app) + rest == rest;
      NothingRead(cfg, s, Go(s.(phase := AppDat)), rest);
      t := s.(phase := WinInd);
      NothingRead(cfg, s.(phase := AppDat), Go(t), rest);
    }
  }

  lemma FileHeaderRead(cfg: Config, app: Option<seq<byte>>, rest: seq<byte>) returns (t: Dec)
    requires cfg.blksize > 0 && (app.Some? ==> |app.value| < TWO64 - 1)
    ensures Sane(t) && AtWindow(t, 0) && t.winstart == t.tgtlen == 0
    ensures Drive(cfg, Start(), FileHeader(app) + rest) == Drive(cfg, t, rest)
  {
    hide Drive, Step, EmitAct, WindowAct, SectionAct, SizesAct, Encoding;
    var magic: seq<byte> := [0xd6, 0xc3, 0xc4, 0];
    var ind: byte := if app.Some? then 4 else 0;
    var r2 := AppHeaderBytes(app) + rest;
    assert FileHeader(app) + rest == magic + ([ind] + r2);
    var s := Start();
    var s1 := s.(phase := HdrInd, magic := magic);
    BytesRead(cfg, s, Go(s1), magic, [ind] + r2);
    HdrIndRead(cfg, s1, ind, r2);
    var s2 := s1.(phase := SecondId, hdrInd := ind);
    DefaultsRead(cfg, s2, r2);
    t := AppHeaderRead(cfg, s2.(phase := AppLen), app, rest);
  }

  function FileBytes(ws: seq<EncWindow>, adler: bool): seq<byte> {
    if ws == [] then [] else WindowBytes(ws[0], adler) + FileBytes(ws[1..], adler)
  }

  function FileEvents(k: nat, ws: seq<EncWindow>): seq<Event>
    decreases |ws|
  {
    if ws == [] then [] else WindowEvents(k, ws[0]) + FileEvents(k + 1, ws[1..])
  }

  /** Where the last window starts in the target file. */
  function LastStart(ws: seq<EncWindow>): nat {
    if |ws| <= 1 then 0 else |ws[0].target| + LastStart(ws[1..])
  }

  lemma EndRead(cfg: Config, s: Dec)
    requires cfg.blksize > 0 && Sane(s) && s.phase.WinInd?
    ensures Drive(cfg, s, []) == Run([], Wants(s))
  {
    assert Step(cfg, s, []) == Waiting(s);
  }

  lemma {:induction false} WindowsRead(cfg: Config, s: Dec, k: nat, ws: seq<EncWindow>, adler: bool) returns (t: Dec)
    requires Emits(cfg) && Sane(s) && AtWindow(s, k)
    requires forall i :: 0 <= i < |ws| ==> Decodable(cfg, ws[i])
    requires ws != [] ==> s.winstart + s.tgtlen + LastStart(ws) < XOFF_LIMIT
    ensures Sane(t) && AtWindow(t, k + |ws|) && t.winstart + t.tgtlen == s.winstart + s.tgtlen + |Targets(ws)|
    ensures Drive(cfg, s, FileBytes(ws, adler)) == Run(FileEvents(k, ws), Wants(t))
    decreases |ws|
  {
    hide WindowBytes, WindowEvents, Decodable, Drive;
    if ws == [] {
      t := s;
      EndRead(cfg, s);
    } else {
      var u := WindowRead(cfg, s, ws[0], adler, FileBytes(ws[1..], adler));
      t := WindowsRead(cfg, u, k + 1, ws[1..], adler);
    }
  }

  /** The bytes handed over, one output after the other. */
  function OutputBytes(events: seq<Event>): seq<byte> {
    if events == [] then []
    else OutputBytes(events[..|events| - 1]) + EventBytes(events[|events| - 1])
  }

  function EventBytes(ev: Event): seq<byte> {
    if ev.Output? then ev.bytes else []
  }

  lemma OutputOfLast(events: seq<Event>)
    ensures OutputBytes([]) == []
    ensures events != [] ==>
              OutputBytes(events) == OutputBytes(events[..|events| - 1]) + EventBytes(events[|events| - 1])
  {
  }

  function Targets(ws: seq<EncWindow>): seq<byte> {
    if ws == [] then [] else ws[0].target + Targets(ws[1..])
  }

  lemma {:induction false} OutputConcat(a: seq<Event>, b: seq<Event>)
    ensures OutputBytes(a + b) == OutputBytes(a) + OutputBytes(b)
    decreases |b|
  {
    hide *;
    OutputOfLast(b);
    OutputOfLast(a + b);
    if b == [] {
      assert a + [] == a && OutputBytes(a) + [] == OutputBytes(a);
    } else {
      OutputConcat(a, b[..|b| - 1]);
      assert (a + b)[..|a + b| - 1] == a + b[..|b| - 1] && (a + b)[|a + b| - 1] == b[|b| - 1];
      assert OutputBytes(a) + OutputBytes(b[..|b| - 1]) + EventBytes(b[|b| - 1])
          == OutputBytes(a) + (OutputBytes(b[..|b| - 1]) + EventBytes(b[|b| - 1]));
    }
  }

  lemma {:induction false} OutputIsTarget(k: nat, ws: seq<EncWindow>)
    ensures OutputBytes(FileEvents(k, ws)) == Targets(ws)
    decreases |ws|
  {
    hide *;
    FirstWindow(k, ws);
    OutputOfLast([]);
    if ws != [] {
      WindowOutput(k, ws[0]);
      OutputConcat(WindowEvents(k, ws[0]), FileEvents(k + 1, ws[1..]));
      OutputIsTarget(k + 1, ws[1..]);
    }
  }

  lemma FirstWindow(k: nat, ws: seq<EncWindow>)
    ensures ws == [] ==> FileEvents(k, ws) == [] && Targets(ws) == []
    ensures ws != [] ==> FileEvents(k, ws) == WindowEvents(k, ws[0]) + FileEvents(k + 1, ws[1..])
    ensures ws != [] ==> Targets(ws) == ws[0].target + Targets(ws[1..])
  {
    hide WindowEvents;
  }

  lemma WindowOutput(k: nat, w: EncWindow)
    ensures OutputBytes(WindowEvents(k, w)) == w.target
  {
    var first: Event := if k == 0 then GotHeader else WinStart;
    hide OutputBytes;
    OutputOfLast([first, Output(w.target), WinFinish]);
    OutputOfLast([first, Output(w.target)]);
    OutputOfLast([first]);
    assert [first, Output(w.target), WinFinish][..2] == [first, Output(w.target)];
    assert [first, Output(w.target)][..1] == [first] && [first][..0] == [];
    assert [] + w.target + [] == w.target;
  }

  /** Round trip through a file: whatever windows are written, and whatever pieces the file arrives
      in, the decoder reports each window in order with exactly its target bytes, so that all its
      output is the target file, and it is left waiting for a further window. */
  lemma FileRoundTrip(cfg: Config, app: Option<seq<byte>>, ws: seq<EncWindow>, adler: bool,
                      first: seq<byte>, chunks: seq<seq<byte>>)
    requires Emits(cfg) && (app.Some? ==> |app.value| < TWO64 - 1)
    requires forall i :: 0 <= i < |ws| ==> Decodable(cfg, ws[i])
    requires LastStart(ws) < XOFF_LIMIT
    requires first + Flat(chunks) == FileHeader(app) + FileBytes(ws, adler)
    ensures var r := DriveAll(cfg, Drive(cfg, Start(), first), chunks);
            && r.events == FileEvents(0, ws) && OutputBytes(r.events) == Targets(ws)
            && r.end.Wants? && AtWindow(r.end.s, |ws|)
  {
    hide Drive, DriveAll, Decodable, OutputBytes;
    OutputIsTarget(0, ws);
    var s := FileHeaderRead(cfg, app, FileBytes(ws, adler));
    var t := WindowsRead(cfg, s, 0, ws, adler);
    ChunkingIrrelevant(cfg, Start(), first, chunks);
  }
}
