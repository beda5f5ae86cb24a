/**
 What the three sections of a window mean (sections 5 and 6 of RFC 3284), as the decoder
 reads them.  Addresses and sizes are 64-bit `usize_t`; sums wrap where the code's do.
 */
module WindowFormat {
  import opened Bytes
  import opened Integers
  import opened AddressCache
  import opened CodeTable
  import opened OverlapCopy

  /** What surrounds a window: the source file and the size of its blocks, the part of the source
      that is the copy window, and the length of the target window. */
  datatype Window = Window(source: seq<byte>, blksize: nat, cpyoff: nat, cpylen: nat, tgtlen: nat) {
    ghost predicate Valid() {
      blksize > 0 && cpylen + tgtlen < TWO64
    }
  }

  /** Everything the decoder has left of a window, and what it has produced.  `pos` is the
      position that addresses are relative to; it counts the copy window. */
  datatype DecState = DecState(inst: seq<byte>, data: seq<byte>, addr: seq<byte>,
                               cache: CacheState, pos: nat, out: seq<byte>)

  /** A decoded half of an opcode. */
  datatype HInst = HInst(typ: nat, size: nat, addr: nat)

  function Repeat(b: byte, n: nat): (r: seq<byte>)
    ensures |r| == n
  {
    seq(n, i => b)
  }

  // ----- one half of an opcode

  /** What a parsed half guarantees: a copy starts before the position it was parsed at, the
      position moves by its size, and a copy from the source window ends within that window. */
  ghost predicate Parsed(w: Window, st: DecState, h: HInst, next: DecState) {
    && next.cache.Valid() && next.out == st.out && next.data == st.data
    && next.pos == (st.pos + h.size) % TWO64 <= w.cpylen + w.tgtlen
    && (h.typ >= CPY ==> h.addr < st.pos)
    && (h.typ >= CPY && h.addr < w.cpylen ==> (h.addr + h.size) % TWO64 <= w.cpylen)
  }

  /** xd3_decode_parse_halfinst: the size and the address, with the bounds checks. */
  function ParseHalf(w: Window, st: DecState, typ: nat, size: nat): (r: Result<(HInst, DecState)>)
    requires w.Valid() && st.cache.Valid() && typ < CPY + MODES
    ensures r.Ok? ==> var (h, next) := r.value;
              h.typ == typ && Parsed(w, st, h, next) && |next.inst| <= |st.inst|
  {
    if size == 0 then
      match ReadInteger(st.inst, TWO64)
      case ReadFail => Err(InvalidInput)
      case Read(v, rest) =>
        ReadFromConsumes(0, st.inst, TWO64);
        ParseAddress(w, st.(inst := rest), typ, v)
    else ParseAddress(w, st, typ, size)
  }

  function ParseAddress(w: Window, st: DecState, typ: nat, size: nat): (r: Result<(HInst, DecState)>)
    requires w.Valid() && st.cache.Valid() && typ < CPY + MODES
    ensures r.Ok? ==> var (h, next) := r.value;
              h.typ == typ && Parsed(w, st, h, next) && next.inst == st.inst
  {
    if typ >= CPY then
      match DecodeAddress(st.cache, st.pos, typ - CPY, st.addr)
      case BadAddress => Err(InvalidInput)
      case Address(addr, rest) =>
        AddressBelow(st.cache, st.pos, typ - CPY, st.addr);
        if addr >= st.pos then Err(InvalidInput)
        else if addr < w.cpylen && (addr + size) % TWO64 > w.cpylen then Err(InvalidInput)
        else Advance(w, st.(addr := rest, cache := st.cache.Update(addr)), HInst(typ, size, addr))
    else Advance(w, st, HInst(typ, size, 0))
  }

  lemma AddressBelow(c: CacheState, here: nat, mode: nat, input: seq<byte>)
    requires c.Valid() && mode < MODES
    ensures DecodeAddress(c, here, mode, input).Address? ==> DecodeAddress(c, here, mode, input).addr < TWO64
  {
    if mode < 2 + S_NEAR && ReadInteger(input, TWO64).Read? {
      ReadFromConsumes(0, input, TWO64);
    }
  }

  /** The output bound; both the comparison and the update wrap. */
  function Advance(w: Window, st: DecState, h: HInst): (r: Result<(HInst, DecState)>) {
    var next := (st.pos + h.size) % TWO64;
    if next > w.cpylen + w.tgtlen then Err(InvalidInput) else Ok((h, st.(pos := next)))
  }

  /** Whether a copy of `size` bytes at offset `off` of the source runs past its end.  A copy of
      no bytes is refused beyond the end too, except at the very start of a block. */
  predicate SourceTooShort(w: Window, off: nat, size: nat)
    requires w.blksize > 0
  {
    off + size > |w.source| && !(size == 0 && off % w.blksize == 0)
  }

  /** What parsing leaves for the output step: a target copy starts among the bytes produced. */
  ghost predicate Reachable(w: Window, out: seq<byte>, h: HInst) {
    h.typ >= CPY && h.addr >= w.cpylen ==> h.addr - w.cpylen < |out|
  }

  /** xd3_decode_output_halfinst: the bytes an instruction produces.  A size that the target
      window has no room for got past the parser by wrapping; it never fits the buffer. */
  function ExecHalf(w: Window, st: DecState, h: HInst): (r: Result<DecState>)
    requires w.Valid() && h.typ != NOOP
    requires |st.out| + h.size <= w.tgtlen ==> Reachable(w, st.out, h)
    ensures r.Ok? ==> r.value.inst == st.inst && r.value.addr == st.addr && r.value.cache == st.cache
                      && r.value.pos == st.pos && |r.value.out| == |st.out| + h.size <= w.tgtlen
  {
    if |st.out| + h.size > w.tgtlen then Err(InvalidInput)
    else if h.typ == RUN then
      if st.data == [] then Err(InvalidInput)
      else Ok(st.(data := st.data[1..], out := st.out + Repeat(st.data[0], h.size)))
    else if h.typ == ADD then
      if h.size > |st.data| then Err(InvalidInput)
      else Ok(st.(data := st.data[h.size..], out := st.out + st.data[..h.size]))
    else if h.addr < w.cpylen then
      if SourceTooShort(w, w.cpyoff + h.addr, h.size) then Err(InvalidInput)
      else if h.size == 0 then Ok(st)
      else Ok(st.(out := st.out + w.source[w.cpyoff + h.addr..w.cpyoff + h.addr + h.size]))
    else Ok(st.(out := CopyBytes(st.out, h.addr - w.cpylen, h.size)))
  }

  // ----- whole opcodes and whole windows

  /** Between opcodes the position counts exactly the copy window and the bytes produced. */
  ghost predicate Aligned(w: Window, st: DecState) {
    st.cache.Valid() && st.pos == w.cpylen + |st.out| && |st.out| <= w.tgtlen
  }

  lemma ParsedAligned(w: Window, st: DecState, h: HInst, next: DecState)
    requires w.Valid() && Parsed(w, st, h, next)
    ensures st.pos + h.size <= w.cpylen + w.tgtlen ==> next.pos == st.pos + h.size
  {
  }

  ghost predicate IsRow(row: DInst) {
    row.type1 != NOOP && row.type1 < CPY + MODES && row.type2 < CPY + MODES
  }

  /** One row of the code table: both halves are parsed, then both are carried out. */
  function DecodeRow(w: Window, st: DecState, row: DInst): (r: Result<DecState>)
    requires w.Valid() && Aligned(w, st) && IsRow(row)
    ensures r.Ok? ==> Aligned(w, r.value) && |r.value.inst| <= |st.inst|
  {
    match ParseHalf(w, st, row.type1, row.size1)
    case Err(e) => Err(e)
    case Ok((h1, st1)) =>
      ParsedAligned(w, st, h1, st1);
      if row.type2 == NOOP then ExecHalf(w, st1, h1)
      else
        match ParseHalf(w, st1, row.type2, row.size2)
        case Err(e) => Err(e)
        case Ok((h2, st2)) => ExecBoth(w, st, st1, st2, h1, h2)
  }

  function ExecBoth(w: Window, st: DecState, st1: DecState, st2: DecState, h1: HInst, h2: HInst): (r: Result<DecState>)
    requires w.Valid() && Aligned(w, st) && Parsed(w, st, h1, st1) && Parsed(w, st1, h2, st2)
    requires h1.typ != NOOP && h2.typ != NOOP
    ensures r.Ok? ==> Aligned(w, r.value) && r.value.inst == st2.inst
  {
    match ExecHalf(w, st2, h1)
    case Err(e) => Err(e)
    case Ok(st3) =>
      ParsedAligned(w, st, h1, st1);
      ParsedAligned(w, st1, h2, st2);
      ExecHalf(w, st3, h2)
  }

  lemma RowIsRow(code: byte)
    ensures IsRow(Row(code))
  {
  }

  /** One opcode. */
  function DecodeOne(w: Window, st: DecState): (r: Result<DecState>)
    requires w.Valid() && Aligned(w, st) && st.inst != []
    ensures r.Ok? ==> Aligned(w, r.value) && |r.value.inst| < |st.inst|
  {
    RowIsRow(st.inst[0]);
    DecodeRow(w, st.(inst := st.inst[1..]), Row(st.inst[0]))
  }

  /** Opcodes until the INST section is empty, then the checks that end a window. */
  function DecodeFrom(w: Window, st: DecState): (r: Result<seq<byte>>)
    requires w.Valid() && Aligned(w, st)
    ensures r.Ok? ==> |r.value| == w.tgtlen
    decreases |st.inst|
  {
    if st.inst == [] then
      if |st.out| != w.tgtlen || st.data != [] || st.addr != [] then Err(InvalidInput)
      else Ok(st.out)
    else
      match DecodeOne(w, st)
      case Err(e) => Err(e)
      case Ok(next) => DecodeFrom(w, next)
  }

  function StartState(w: Window, data: seq<byte>, inst: seq<byte>, addr: seq<byte>): (st: DecState)
    ensures Aligned(w, st)
  {
    DecState(inst, data, addr, InitialCache(), w.cpylen, [])
  }

  /** The target window that three sections stand for. */
  function DecodeWindow(w: Window, data: seq<byte>, inst: seq<byte>, addr: seq<byte>): (r: Result<seq<byte>>)
    requires w.Valid()
  {
    DecodeFrom(w, StartState(w, data, inst, addr))
  }

  // ----- windows without empty instructions

  /** Both halves of the next opcode have a size. */
  ghost predicate RowSized(w: Window, st: DecState)
    requires w.Valid() && Aligned(w, st) && st.inst != []
  {
    var row := Row(st.inst[0]);
    RowIsRow(st.inst[0]);
    match ParseHalf(w, st.(inst := st.inst[1..]), row.type1, row.size1)
    case Err(_) => true
    case Ok((h1, st1)) =>
      h1.size > 0 && (row.type2 != NOOP ==> (match ParseHalf(w, st1, row.type2,
                                                             row.size2) case Err(_) => true case Ok((h2,
                                                               _)) => h2.size > 0))
  }

  /** No instruction of the window is empty. */
  ghost predicate AllSized(w: Window, st: DecState)
    requires w.Valid() && Aligned(w, st)
    decreases |st.inst|
  {
    st.inst != [] ==> RowSized(w, st) && (DecodeOne(w, st).Ok? ==> AllSized(w, DecodeOne(w, st).value))
  }

  // ----- the instructions of a window

  /** The one or two instructions of the next opcode. */
  function RowHalves(w: Window, st: DecState): seq<HInst>
    requires w.Valid() && Aligned(w, st) && st.inst != []
  {
    var row := Row(st.inst[0]);
    RowIsRow(st.inst[0]);
    match ParseHalf(w, st.(inst := st.inst[1..]), row.type1, row.size1)
    case Err(_) => []
    case Ok((h1, st1)) =>
      if row.type2 == NOOP then [h1]
      else
        match ParseHalf(w, st1, row.type2, row.size2)
        case Err(_) => []
        case Ok((h2, _)) => [h1, h2]
  }

  /** All the instructions that the decoder parses, in their order. */
  function Trace(w: Window, st: DecState): seq<HInst>
    requires w.Valid() && Aligned(w, st)
    decreases |st.inst|
  {
    if st.inst == [] then []
    else
      match DecodeOne(w, st)
      case Err(_) => []
      case Ok(next) => RowHalves(w, st) + Trace(w, next)
  }
}
