/**
 How encoder output decodes: what one emitted half instruction stands for, and how a prefix of
 the three sections leads the decoder to a state, whatever follows.
 */
module WindowEmission {
  import opened Bytes
  import opened Integers
  import opened AddressCache
  import opened CodeTable
  import opened OverlapCopy
  import opened WindowFormat

  /** One emitted instruction: its type with the copy mode, its size, the address it copies from
      in the combined window, and the bytes it put in the DATA and ADDR sections. */
  datatype Half = Half(typ: nat, size: nat, target: nat, data: seq<byte>, addr: seq<byte>)

  predicate IsType(typ: nat) {
    typ == ADD || typ == RUN || CPY <= typ < CPY + MODES
  }

  /** Under cache `c` and after `out`, the half produces the rest of `out'` and leaves `c'`. */
  ghost predicate HalfMeans(w: Window, h: Half, c: CacheState, out: seq<byte>, c': CacheState, out': seq<byte>) {
    && w.Valid() && c.Valid() && c'.Valid() && IsType(h.typ)
    && 0 < h.size && |out'| == |out| + h.size <= w.tgtlen
    && (h.typ < CPY ==> h.addr == [] && c' == c && h.target == 0)
    && (h.typ == ADD ==> |h.data| == h.size && out' == out + h.data)
    && (h.typ == RUN ==> |h.data| == 1 && out' == out + Repeat(h.data[0], h.size))
    && (h.typ >= CPY ==>
          && h.data == [] && h.target < w.cpylen + |out|
          && (h.typ - CPY, h.addr) == EncodeAddress(c, h.target, w.cpylen + |out|)
          && c' == c.Update(h.target)
          && if h.target < w.cpylen then
               && h.target + h.size <= w.cpylen && w.cpyoff + h.target + h.size <= |w.source|
               && out' == out + w.source[w.cpyoff + h.target..w.cpyoff + h.target + h.size]
             else out' == CopyBytes(out, h.target - w.cpylen, h.size))
  }

  function Target(h: Half): HInst {
    HInst(h.typ, h.size, h.target)
  }

  lemma ParseEmitted(w: Window, h: Half, c: CacheState, out: seq<byte>, c': CacheState, out': seq<byte>,
                     st: DecState, a: seq<byte>)
    requires HalfMeans(w, h, c, out, c', out')
    requires st.cache == c && st.pos == w.cpylen + |out| && st.addr == h.addr + a
    ensures ParseAddress(w, st, h.typ, h.size) ==
            Ok((Target(h), st.(addr := a, cache := c', pos := st.pos + h.size)))
  {
    hide EncodeAddress, DecodeAddress, CopyBytes, Repeat;
    NoWrap(st.pos + h.size);
    if h.typ >= CPY {
      EncodeThenDecode(c, h.target, st.pos, a);
      NoWrap(h.target + h.size);
    } else {
      assert h.addr + a == a;
    }
  }

  lemma ExecEmitted(w: Window, h: Half, c: CacheState, out: seq<byte>, c': CacheState, out': seq<byte>,
                    st: DecState, d: seq<byte>)
    requires HalfMeans(w, h, c, out, c', out')
    requires st.out == out && st.data == h.data + d
    ensures Target(h).typ != NOOP && Reachable(w, st.out, Target(h))
    ensures ExecHalf(w, st, Target(h)) == Ok(st.(data := d, out := out'))
  {
    hide EncodeAddress, CopyBytes;
    assert (h.data + d)[|h.data|..] == d;
    assert (h.data + d)[..|h.data|] == h.data;
  }

  // ----- opcodes

  function SingleBytes(typ: nat, size: nat): seq<byte>
    requires IsType(typ)
  {
    [SingleCode(typ, size)] + if Row(SingleCode(typ, size)).size1 == 0 then Encoding(size) else []
  }

  lemma SingleBytesParts(typ: nat, size: nat, i: seq<byte>)
    requires IsType(typ)
    ensures var b := SingleBytes(typ, size);
            |b| > 0 && b[0] == SingleCode(typ, size) && (b + i)[0] == b[0] && (b + i)[1..] == b[1..] + i
  {
    hide Encoding, SingleCode, Row;
  }

  lemma ParseSingle(w: Window, st: DecState, typ: nat, size: nat, i: seq<byte>)
    requires w.Valid() && st.cache.Valid() && IsType(typ) && 0 < size < TWO64
    requires st.inst == SingleBytes(typ, size)[1..] + i
    ensures var row := Row(SingleCode(typ, size));
            row.type1 == typ && row.type2 == NOOP &&
            ParseHalf(w, st, typ, row.size1) == ParseAddress(w, st.(inst := i), typ, size)
  {
    SingleCodeRow(typ, size);
    var row := Row(SingleCode(typ, size));
    if row.size1 == 0 {
      assert st.inst == Encoding(size) + i;
      EmitThenRead(size, i, TWO64);
    } else {
      assert st.inst == i;
    }
  }

  lemma HalfFacts(w: Window, h: Half, c: CacheState, out: seq<byte>, c': CacheState, out': seq<byte>)
    requires HalfMeans(w, h, c, out, c', out')
    ensures w.Valid() && c.Valid() && c'.Valid() && IsType(h.typ) && 0 < h.size < TWO64 && Target(h).size > 0
    ensures |out'| == |out| + h.size <= w.tgtlen
  {
  }

  lemma EncodingBrief(n: nat)
    requires n < TWO64
    ensures |Encoding(n)| <= 10
  {
    Pow128Values();
    HighDigitsLength(n / 128, 9);
  }

  lemma SingleBrief(typ: nat, size: nat)
    requires IsType(typ) && size < TWO64
    ensures |SingleBytes(typ, size)| <= 11
  {
    hide SingleCode, Row, Encoding;
    EncodingBrief(size);
  }

  /** What DecodeOne makes of an opcode for one instruction. */
  lemma OneHalf(w: Window, st: DecState, code: byte, h: HInst, parsed: DecState)
    requires w.Valid() && Aligned(w, st) && st.inst != [] && st.inst[0] == code && Row(code).type2 == NOOP
             && IsRow(Row(code))
    requires ParseHalf(w, st.(inst := st.inst[1..]), Row(code).type1, Row(code).size1) == Ok((h, parsed))
    ensures h.typ != NOOP && Parsed(w, st.(inst := st.inst[1..]), h, parsed)
    ensures DecodeOne(w, st) == ExecHalf(w, parsed, h) && (h.size > 0 ==> RowSized(w, st)) && RowHalves(w, st) == [h]
  {
    hide Row, ParseHalf, ExecHalf, Parsed, IsRow;
    assert Row(code).type1 != NOOP by { RowIsRow(code); assert IsRow(Row(code)); }
    ParsedAligned(w, st.(inst := st.inst[1..]), h, parsed);
  }

  /** And of an opcode for two: both are parsed before the first is carried out. */
  lemma TwoHalves(w: Window, st: DecState, code: byte, h1: HInst, parsed1: DecState, h2: HInst, parsed2: DecState,
                  mid: DecState)
    requires w.Valid() && Aligned(w, st) && st.inst != [] && st.inst[0] == code && Row(code).type2 != NOOP
             && IsRow(Row(code))
    requires ParseHalf(w, st.(inst := st.inst[1..]), Row(code).type1, Row(code).size1) == Ok((h1, parsed1))
    requires ParseHalf(w, parsed1, Row(code).type2, Row(code).size2) == Ok((h2, parsed2))
    requires h1.typ != NOOP && (|parsed2.out| + h1.size <= w.tgtlen ==> Reachable(w, parsed2.out, h1))
    requires ExecHalf(w, parsed2, h1) == Ok(mid)
    ensures h2.typ != NOOP && (|mid.out| + h2.size <= w.tgtlen ==> Reachable(w, mid.out, h2))
    ensures DecodeOne(w, st) == ExecHalf(w, mid, h2) && (h1.size > 0 && h2.size > 0 ==> RowSized(w, st))
    ensures RowHalves(w, st) == [h1, h2]
  {
    hide Row, ParseHalf, ExecHalf, IsRow;
    ParsedAligned(w, st.(inst := st.inst[1..]), h1, parsed1);
    ParsedAligned(w, parsed1, h2, parsed2);
  }

  lemma EmittedAligned(w: Window, inst: seq<byte>, data: seq<byte>, addr: seq<byte>, c: CacheState, out: seq<byte>)
    requires c.Valid() && |out| <= w.tgtlen
    ensures Aligned(w, DecState(inst, data, addr, c, w.cpylen + |out|, out))
  {
  }

  lemma SingleParsed(w: Window, h: Half, c: CacheState, out: seq<byte>, c': CacheState, out': seq<byte>,
                     data: seq<byte>, i: seq<byte>, a: seq<byte>)
    requires HalfMeans(w, h, c, out, c', out')
    ensures w.Valid() && c.Valid() && IsType(h.typ)
    ensures var row := Row(SingleCode(h.typ, h.size));
            && row.type1 == h.typ && row.type2 == NOOP && IsRow(row)
            && ParseHalf(w, DecState(SingleBytes(h.typ, h.size)[1..] + i, data, h.addr + a, c, w.cpylen + |out|, out),
                         h.typ, row.size1)
               == Ok((Target(h), DecState(i, data, a, c', w.cpylen + |out'|, out)))
  {
    HalfFacts(w, h, c, out, c', out');
    RowIsRow(SingleCode(h.typ, h.size));
    hide HalfMeans, Row, ParseHalf, ParseAddress, Encoding, SingleCode, SingleBytes, IsRow;
    var st := DecState(SingleBytes(h.typ, h.size)[1..] + i, data, h.addr + a, c, w.cpylen + |out|, out);
    ParseSingle(w, st, h.typ, h.size, i);
    ParseEmitted(w, h, c, out, c', out', st.(inst := i), a);
  }

  /** A single opcode decodes to the half it was emitted for. */
  lemma DecodeSingle(w: Window, h: Half, c: CacheState, out: seq<byte>, c': CacheState, out': seq<byte>,
                     d: seq<byte>, i: seq<byte>, a: seq<byte>)
    requires HalfMeans(w, h, c, out, c', out')
    ensures w.Valid() && c.Valid() && IsType(h.typ) && |out| <= w.tgtlen
    ensures var st := DecState(SingleBytes(h.typ, h.size) + i, h.data + d, h.addr + a, c, w.cpylen + |out|, out);
            && st.inst != [] && DecodeOne(w, st) == Ok(DecState(i, d, a, c', w.cpylen + |out'|, out'))
            && RowSized(w, st) && RowHalves(w, st) == [Target(h)]
  {
    HalfFacts(w, h, c, out, c', out');
    SingleBytesParts(h.typ, h.size, i);
    hide *;
    var b, code := SingleBytes(h.typ, h.size), SingleCode(h.typ, h.size);
    EmittedAligned(w, b + i, h.data + d, h.addr + a, c, out);
    SingleParsed(w, h, c, out, c', out', h.data + d, i, a);
    var parsed := DecState(i, h.data + d, a, c', w.cpylen + |out'|, out);
    OneHalf(w, DecState(b + i, h.data + d, h.addr + a, c, w.cpylen + |out|, out), code, Target(h), parsed);
    ExecEmitted(w, h, c, out, c', out', parsed, d);
  }

  lemma DoubleParsed(w: Window, h1: Half, h2: Half, c: CacheState, out: seq<byte>, c1: CacheState, out1: seq<byte>,
                     c2: CacheState, out2: seq<byte>, data: seq<byte>, i: seq<byte>, a: seq<byte>)
    requires HalfMeans(w, h1, c, out, c1, out1) && HalfMeans(w, h2, c1, out1, c2, out2)
    requires DoubleCode(h1.typ, h1.size, h2.typ, h2.size) != 0
    ensures var row := Row(DoubleCode(h1.typ, h1.size, h2.typ, h2.size));
            && IsRow(row) && row.type2 != NOOP && w.Valid() && c.Valid() && c1.Valid()
            && ParseHalf(w, DecState(i, data, h1.addr + (h2.addr + a), c, w.cpylen + |out|, out), row.type1, row.size1)
               == Ok((Target(h1), DecState(i, data, h2.addr + a, c1, w.cpylen + |out1|, out)))
            && ParseHalf(w, DecState(i, data, h2.addr + a, c1, w.cpylen + |out1|, out), row.type2, row.size2)
               == Ok((Target(h2), DecState(i, data, a, c2, w.cpylen + |out2|, out)))
  {
    hide HalfMeans, Row, ParseAddress, DoubleCode, IsRow;
    HalfFacts(w, h1, c, out, c1, out1);
    HalfFacts(w, h2, c1, out1, c2, out2);
    DoubleCodeRow(h1.typ, h1.size, h2.typ, h2.size);
    RowIsRow(DoubleCode(h1.typ, h1.size, h2.typ, h2.size));
    ParseEmitted(w, h1, c, out, c1, out1, DecState(i, data, h1.addr + (h2.addr + a), c, w.cpylen + |out|, out),
                 h2.addr + a);
    ParseEmitted(w, h2, c1, out1, c2, out2, DecState(i, data, h2.addr + a, c1, w.cpylen + |out1|, out), a);
  }

  /** A double opcode decodes to the two halves it was emitted for. */
  lemma DecodeDouble(w: Window, h1: Half, h2: Half, c: CacheState, out: seq<byte>, c1: CacheState, out1: seq<byte>,
                     c2: CacheState, out2: seq<byte>, d: seq<byte>, i: seq<byte>, a: seq<byte>)
    requires HalfMeans(w, h1, c, out, c1, out1) && HalfMeans(w, h2, c1, out1, c2, out2)
    requires DoubleCode(h1.typ, h1.size, h2.typ, h2.size) != 0
    ensures w.Valid() && c.Valid() && c2.Valid() && |out1| <= |out2| <= w.tgtlen && |out| <= w.tgtlen
    ensures var st := DecState([DoubleCode(h1.typ, h1.size, h2.typ, h2.size)] + i,
                               h1.data + (h2.data + d), h1.addr + (h2.addr + a), c, w.cpylen + |out|, out);
            DecodeOne(w, st) == Ok(DecState(i, d, a, c2, w.cpylen + |out2|, out2)) && RowSized(w, st)
            && RowHalves(w, st) == [Target(h1), Target(h2)]
  {
    HalfFacts(w, h1, c, out, c1, out1);
    HalfFacts(w, h2, c1, out1, c2, out2);
    var code := DoubleCode(h1.typ, h1.size, h2.typ, h2.size);
    assert ([code] + i)[1..] == i;
    DoubleDecoded(w, h1, h2, c, out, c1, out1, c2, out2, h2.data + d, d, [code] + i, i, a);
  }

  lemma DoubleDecoded(w: Window, h1: Half, h2: Half, c: CacheState, out: seq<byte>, c1: CacheState, out1: seq<byte>,
                      c2: CacheState, out2: seq<byte>, d2: seq<byte>, d: seq<byte>, inst: seq<byte>, i: seq<byte>,
                        a: seq<byte>)
    requires HalfMeans(w, h1, c, out, c1, out1) && HalfMeans(w, h2, c1, out1, c2, out2)
    requires DoubleCode(h1.typ, h1.size, h2.typ, h2.size) != 0 && d2 == h2.data + d
    requires inst != [] && inst[0] == DoubleCode(h1.typ, h1.size, h2.typ, h2.size) && inst[1..] == i
    ensures w.Valid() && c.Valid() && |out| <= w.tgtlen
    ensures var st := DecState(inst, h1.data + d2, h1.addr + (h2.addr + a), c, w.cpylen + |out|, out);
            DecodeOne(w, st) == Ok(DecState(i, d, a, c2, w.cpylen + |out2|, out2)) && RowSized(w, st)
            && RowHalves(w, st) == [Target(h1), Target(h2)]
  {
    hide *;
    HalfFacts(w, h1, c, out, c1, out1);
    HalfFacts(w, h2, c1, out1, c2, out2);
    var data, addr := h1.data + d2, h1.addr + (h2.addr + a);
    EmittedAligned(w, inst, data, addr, c, out);
    DoubleParsed(w, h1, h2, c, out, c1, out1, c2, out2, data, i, a);
    var parsed1 := DecState(i, data, h2.addr + a, c1, w.cpylen + |out1|, out);
    var parsed2 := DecState(i, data, a, c2, w.cpylen + |out2|, out);
    var mid := DecState(i, d2, a, c2, w.cpylen + |out2|, out1);
    ExecEmitted(w, h1, c, out, c1, out1, parsed2, d2);
    TwoHalves(w, DecState(inst, data, addr, c, w.cpylen + |out|, out), inst[0], Target(h1), parsed1, Target(h2),
              parsed2, mid);
    ExecEmitted(w, h2, c1, out1, c2, out2, mid, d);
  }

  // ----- whole sections

  ghost predicate AllTyped(hs: seq<Half>) {
    forall i :: 0 <= i < |hs| ==> IsType(hs[i].typ)
  }

  function DataOf(hs: seq<Half>): seq<byte> {
    if hs == [] then [] else hs[0].data + DataOf(hs[1..])
  }

  function AddrOf(hs: seq<Half>): seq<byte> {
    if hs == [] then [] else hs[0].addr + AddrOf(hs[1..])
  }

  /** The table has an opcode for both. */
  predicate Paired(g: Half, h: Half)
    requires IsType(h.typ)
  {
    DoubleCode(g.typ, g.size, h.typ, h.size) != 0
  }

  /** The opcodes: from the front, two instructions share one whenever the table has one for both. */
  ghost function Opcodes(hs: seq<Half>): seq<byte>
    requires AllTyped(hs)
    decreases |hs|
  {
    if hs == [] then []
    else if |hs| >= 2 && Paired(hs[0], hs[1]) then
      [DoubleCode(hs[0].typ, hs[0].size, hs[1].typ, hs[1].size)] + Opcodes(hs[2..])
    else SingleBytes(hs[0].typ, hs[0].size) + Opcodes(hs[1..])
  }

  /** Each instruction takes the decoder from one cache and output to the next. */
  ghost predicate Link(w: Window, hs: seq<Half>, cs: seq<CacheState>, outs: seq<seq<byte>>, i: nat)
    requires i < |hs| && |cs| == |outs| == |hs| + 1
  {
    HalfMeans(w, hs[i], cs[i], outs[i], cs[i + 1], outs[i + 1])
  }

  ghost predicate Linked(w: Window, hs: seq<Half>, cs: seq<CacheState>, outs: seq<seq<byte>>) {
    && |cs| == |outs| == |hs| + 1 && cs[0].Valid() && |outs[0]| <= w.tgtlen
    && forall i :: 0 <= i < |hs| ==> Link(w, hs, cs, outs, i)
  }

  lemma LinkedRest(w: Window, hs: seq<Half>, cs: seq<CacheState>, outs: seq<seq<byte>>)
    requires Linked(w, hs, cs, outs) && hs != []
    ensures Linked(w, hs[1..], cs[1..], outs[1..]) && HalfMeans(w, hs[0], cs[0], outs[0], cs[1], outs[1])
  {
    hide HalfMeans;
    assert Link(w, hs, cs, outs, 0);
    HalfFacts(w, hs[0], cs[0], outs[0], cs[1], outs[1]);
    forall i | 0 <= i < |hs| - 1 ensures Link(w, hs[1..], cs[1..], outs[1..], i) {
      assert Link(w, hs, cs, outs, i + 1);
    }
  }

  lemma LinkedTyped(w: Window, hs: seq<Half>, cs: seq<CacheState>, outs: seq<seq<byte>>)
    requires Linked(w, hs, cs, outs)
    ensures AllTyped(hs) && (|hs| >= 2 ==> IsType(hs[1].typ))
  {
    hide HalfMeans;
    forall i | 0 <= i < |hs| ensures IsType(hs[i].typ) {
      assert Link(w, hs, cs, outs, i);
      HalfFacts(w, hs[i], cs[i], outs[i], cs[i + 1], outs[i + 1]);
    }
  }

  function Targets(hs: seq<Half>): seq<HInst> {
    seq(|hs|, i requires 0 <= i < |hs| => Target(hs[i]))
  }

  /** What the decoder makes of a state: the output, whether no instruction is empty, and the
      instructions. */
  ghost predicate Yields(w: Window, st: DecState, out: seq<byte>, steps: seq<HInst>) {
    && w.Valid() && Aligned(w, st) && DecodeFrom(w, st) == Ok(out) && AllSized(w, st) && Trace(w, st) == steps
  }

  lemma YieldsStep(w: Window, st: DecState, next: DecState, out: seq<byte>, first: seq<HInst>, steps: seq<HInst>)
    requires w.Valid() && Aligned(w, st) && st.inst != [] && DecodeOne(w, st) == Ok(next) && RowSized(w, st)
    requires RowHalves(w, st) == first && Yields(w, next, out, steps)
    ensures Yields(w, st, out, first + steps)
  {
    hide DecodeOne, RowSized, RowHalves;
  }

  ghost function Sections(w: Window, hs: seq<Half>, c: CacheState, out: seq<byte>): DecState
    requires AllTyped(hs)
  {
    DecState(Opcodes(hs), DataOf(hs), AddrOf(hs), c, w.cpylen + |out|, out)
  }

  /** A chain of instructions, written with these opcodes, decodes to what it ends in: the decoder
      parses exactly its instructions. */
  lemma {:induction false} SectionsYield(w: Window, hs: seq<Half>, cs: seq<CacheState>, outs: seq<seq<byte>>)
    requires w.Valid() && Linked(w, hs, cs, outs) && |outs[|hs|]| == w.tgtlen
    ensures AllTyped(hs) && Yields(w, Sections(w, hs, cs[0], outs[0]), outs[|hs|], Targets(hs))
    decreases |hs|
  {
    hide *;
    LinkedTyped(w, hs, cs, outs);
    LinkedEnds(w, hs, cs, outs);
    if hs == [] {
      NoneYield(w, cs[0], outs[0]);
    } else {
      LinkedRest(w, hs, cs, outs);
      LinkedEnds(w, hs[1..], cs[1..], outs[1..]);
      if |hs| >= 2 && Paired(hs[0], hs[1]) {
        LinkedRest(w, hs[1..], cs[1..], outs[1..]);
        SectionsYield(w, hs[2..], cs[2..], outs[2..]);
        PairYields(w, hs, cs[0], outs[0], cs[1], outs[1], cs[2], outs[2], outs[|hs|]);
      } else {
        SectionsYield(w, hs[1..], cs[1..], outs[1..]);
        SingleYields(w, hs, cs[0], outs[0], cs[1], outs[1], outs[|hs|]);
      }
    }
  }

  lemma LinkedEnds(w: Window, hs: seq<Half>, cs: seq<CacheState>, outs: seq<seq<byte>>)
    requires Linked(w, hs, cs, outs)
    ensures |cs| == |outs| == |hs| + 1 && cs[0].Valid() && |outs[0]| <= w.tgtlen
    ensures |hs| >= 2 ==> hs[1..][1..] == hs[2..] && cs[1..][1..] == cs[2..] && outs[1..][1..] == outs[2..]
  {
  }

  lemma NoneYield(w: Window, c: CacheState, out: seq<byte>)
    requires w.Valid() && c.Valid() && |out| == w.tgtlen
    ensures AllTyped([]) && Yields(w, Sections(w, [], c, out), out, Targets([]))
  {
  }

  lemma SingleYields(w: Window, hs: seq<Half>, c: CacheState, out: seq<byte>, c': CacheState, out': seq<byte>,
                     end: seq<byte>)
    requires AllTyped(hs) && hs != [] && AllTyped(hs[1..]) && !(|hs| >= 2 && Paired(hs[0], hs[1]))
    requires HalfMeans(w, hs[0], c, out, c', out') && Yields(w, Sections(w, hs[1..], c', out'), end, Targets(hs[1..]))
    ensures Yields(w, Sections(w, hs, c, out), end, Targets(hs))
  {
    hide HalfMeans, DecodeOne, RowSized, RowHalves, Yields, SingleCode, Row, SingleBytes;
    var h, rest := hs[0], hs[1..];
    var d, i, a := DataOf(rest), Opcodes(rest), AddrOf(rest);
    DecodeSingle(w, h, c, out, c', out', d, i, a);
    EmittedAligned(w, SingleBytes(h.typ, h.size) + i, h.data + d, h.addr + a, c, out);
    YieldsStep(w, Sections(w, hs, c, out), Sections(w, rest, c', out'), end, [Target(h)], Targets(rest));
    assert [Target(h)] + Targets(rest) == Targets(hs);
  }

  lemma PairYields(w: Window, hs: seq<Half>, c: CacheState, out: seq<byte>, c1: CacheState, out1: seq<byte>,
                   c2: CacheState, out2: seq<byte>, end: seq<byte>)
    requires AllTyped(hs) && |hs| >= 2 && AllTyped(hs[2..]) && Paired(hs[0], hs[1])
    requires HalfMeans(w, hs[0], c, out, c1, out1) && HalfMeans(w, hs[1], c1, out1, c2, out2)
    requires Yields(w, Sections(w, hs[2..], c2, out2), end, Targets(hs[2..]))
    ensures Yields(w, Sections(w, hs, c, out), end, Targets(hs))
  {
    hide HalfMeans, DecodeOne, RowSized, RowHalves, Yields, DoubleCode;
    var g, h, rest := hs[0], hs[1], hs[2..];
    var d, i, a := DataOf(rest), Opcodes(rest), AddrOf(rest);
    DecodeDouble(w, g, h, c, out, c1, out1, c2, out2, d, i, a);
    assert hs[1..][1..] == rest && hs[1..][0] == h;
    assert DataOf(hs[1..]) == h.data + d && AddrOf(hs[1..]) == h.addr + a;
    var code := DoubleCode(g.typ, g.size, h.typ, h.size);
    EmittedAligned(w, [code] + i, g.data + (h.data + d), g.addr + (h.addr + a), c, out);
    YieldsStep(w, Sections(w, hs, c, out), Sections(w, rest, c2, out2), end, [Target(g), Target(h)], Targets(rest));
    assert [Target(g), Target(h)] + Targets(rest) == Targets(hs);
  }

  // ----- sections that grow at the end

  lemma {:induction false} DataGrows(hs: seq<Half>, h: Half)
    ensures DataOf(hs + [h]) == DataOf(hs) + h.data && AddrOf(hs + [h]) == AddrOf(hs) + h.addr
  {
    if hs == [] {
      assert [h][1..] == [];
      assert h.data + [] == h.data && h.addr + [] == h.addr;
    } else {
      DataGrows(hs[1..], h);
      assert (hs + [h])[1..] == hs[1..] + [h];
      assert hs[0].data + (DataOf(hs[1..]) + h.data) == hs[0].data + DataOf(hs[1..]) + h.data;
      assert hs[0].addr + (AddrOf(hs[1..]) + h.addr) == hs[0].addr + AddrOf(hs[1..]) + h.addr;
    }
  }

  /** `inst` holds the opcodes of these instructions except those still held back, whatever comes. */
  ghost predicate Settled(hs: seq<Half>, inst: seq<byte>, held: seq<Half>) {
    && AllTyped(hs) && AllTyped(held)
    && forall more | AllTyped(more) :: Opcodes(hs + more) == inst + Opcodes(held + more)
  }

  lemma SettledNone()
    ensures Settled([], [], [])
  {
    forall more | AllTyped(more) ensures Opcodes([] + more) == [] + Opcodes([] + more) {
    }
  }

  /** Nothing is held: the new instruction is. */
  lemma HoldFirst(hs: seq<Half>, inst: seq<byte>, h: Half)
    requires Settled(hs, inst, []) && IsType(h.typ)
    ensures Settled(hs + [h], inst, [h])
  {
    hide Opcodes;
    forall more | AllTyped(more) ensures Opcodes(hs + [h] + more) == inst + Opcodes([h] + more) {
      assert hs + [h] + more == hs + ([h] + more) && [] + ([h] + more) == [h] + more;
    }
  }

  /** The held instruction gets its single opcode, the new one is held. */
  lemma HoldNext(hs: seq<Half>, inst: seq<byte>, g: Half, h: Half)
    requires Settled(hs, inst, [g]) && IsType(h.typ) && !Paired(g, h)
    ensures IsType(g.typ) && Settled(hs + [h], inst + SingleBytes(g.typ, g.size), [h])
  {
    hide Opcodes, SingleBytes;
    assert IsType([g][0].typ);
    forall more | AllTyped(more)
      ensures Opcodes(hs + [h] + more) == inst + SingleBytes(g.typ, g.size) + Opcodes([h] + more)
    {
      assert hs + [h] + more == hs + ([h] + more) && [g] + ([h] + more) == [g, h] + more;
      OpcodesUnpaired(g, [h] + more);
      assert inst + (SingleBytes(g.typ, g.size) + Opcodes([h] + more))
          == inst + SingleBytes(g.typ, g.size) + Opcodes([h] + more);
    }
  }

  lemma OpcodesUnpaired(g: Half, rest: seq<Half>)
    requires IsType(g.typ) && AllTyped(rest) && (rest != [] ==> !Paired(g, rest[0]))
    ensures AllTyped([g] + rest) && Opcodes([g] + rest) == SingleBytes(g.typ, g.size) + Opcodes(rest)
  {
    hide SingleBytes, DoubleCode;
    assert ([g] + rest)[1..] == rest;
  }

  lemma OpcodesPaired(g: Half, h: Half, rest: seq<Half>)
    requires IsType(g.typ) && IsType(h.typ) && AllTyped(rest) && Paired(g, h)
    ensures AllTyped([g, h] + rest)
    ensures Opcodes([g, h] + rest) == [DoubleCode(g.typ, g.size, h.typ, h.size)] + Opcodes(rest)
  {
    hide SingleBytes, DoubleCode;
    assert ([g, h] + rest)[2..] == rest;
  }

  /** The held instruction and the new one share a double opcode. */
  lemma PairUp(hs: seq<Half>, inst: seq<byte>, g: Half, h: Half)
    requires Settled(hs, inst, [g]) && IsType(h.typ) && Paired(g, h)
    ensures Settled(hs + [h], inst + [DoubleCode(g.typ, g.size, h.typ, h.size)], [])
  {
    hide Opcodes, DoubleCode;
    assert IsType([g][0].typ);
    var code := DoubleCode(g.typ, g.size, h.typ, h.size);
    forall more | AllTyped(more) ensures Opcodes(hs + [h] + more) == inst + [code] + Opcodes([] + more) {
      assert hs + [h] + more == hs + ([h] + more) && [g] + ([h] + more) == [g, h] + more && [] + more == more;
      OpcodesPaired(g, h, more);
      assert inst + ([code] + Opcodes(more)) == inst + [code] + Opcodes(more);
    }
  }

  /** The held instruction gets its single opcode and nothing follows. */
  lemma LetGo(hs: seq<Half>, inst: seq<byte>, held: seq<Half>)
    requires Settled(hs, inst, held) && |held| <= 1
    ensures held != [] ==> IsType(held[0].typ)
    ensures Opcodes(hs) == inst + if held == [] then [] else SingleBytes(held[0].typ, held[0].size)
  {
    hide SingleBytes;
    assert hs + [] == hs && held + [] == held;
    assert AllTyped([]);
    if held != [] {
      OpcodesUnpaired(held[0], []);
      assert [held[0]] + [] == held && SingleBytes(held[0].typ, held[0].size) + []
          == SingleBytes(held[0].typ, held[0].size);
    }
  }

  /** Eleven bytes at most of opcode and size for each instruction. */
  lemma {:induction false} OpcodesBrief(hs: seq<Half>)
    requires AllTyped(hs) && forall i :: 0 <= i < |hs| ==> hs[i].size < TWO64
    ensures |Opcodes(hs)| <= 11 * |hs|
    decreases |hs|
  {
    hide SingleBytes, DoubleCode;
    if |hs| >= 2 && Paired(hs[0], hs[1]) {
      OpcodesBrief(hs[2..]);
    } else if hs != [] {
      SingleBrief(hs[0].typ, hs[0].size);
      OpcodesBrief(hs[1..]);
    }
  }
}
