/**
 A section compressed with semi-static Huffman codes, one group: the lengths of the byte codes,
 coded by move-to-front, runs and a Huffman code of their own, then the bytes.
 */
module HuffmanSection {
  import opened Bytes
  import opened Huffman
  import opened PrefixBuilder
  import opened BitPacking
  import opened CanonicalCode
  import opened MoveToFront

  const ALPHABET_SIZE: nat := 256
  const MAX_CODELEN: nat := 20
  const TOTAL_CODES: nat := 22
  const MAX_CLCLEN: nat := 15
  const EXTRA_12OFFSET: nat := 7
  const EFFICIENCY_BITS: nat := 16

  /** djw_init_clen_mtf_1_2: length 0, the basic lengths, the extra ones. */
  function InitialMtf(): (r: seq<nat>)
    ensures |r| == MAX_CODELEN + 1
  {
    [0, 4, 5, 6, 7, 8, 9, 10, 3, 11, 2, 12, 13, 1, 14, 15, 16, 17, 18, 19, 20]
  }

  lemma InitialMtfMembers(l: nat)
    ensures l in InitialMtf() <==> l <= MAX_CODELEN
  {
    var r := InitialMtf();
    assert r[0] == 0 && r[1] == 4 && r[2] == 5 && r[3] == 6 && r[4] == 7 && r[5] == 8 && r[6] == 9 && r[7] == 10;
    assert r[8] == 3 && r[9] == 11 && r[10] == 2 && r[11] == 12 && r[12] == 13 && r[13] == 1 && r[14] == 14;
    assert r[15] == 15 && r[16] == 16 && r[17] == 17 && r[18] == 18 && r[19] == 19 && r[20] == 20;
  }

  // ----- what a compressed section is

  /** The lengths that are written: all but the unused ones at the end. */
  function Trimmed(clclen: seq<nat>, n: nat): (r: nat)
    requires EXTRA_12OFFSET <= n <= |clclen|
    ensures EXTRA_12OFFSET <= r <= n && forall i :: r <= i < n ==> clclen[i] == 0
  {
    if n > EXTRA_12OFFSET && clclen[n - 1] == 0 then Trimmed(clclen, n - 1) else n
  }

  ghost function LengthBits(s: seq<nat>): seq<bool> {
    if s == [] then [] else ValueBits(s[0], 4) + LengthBits(s[1..])
  }

  /** Code lengths that can be written, for these bytes. */
  ghost predicate ByteCode(clen: seq<nat>, data: seq<nat>) {
    |clen| == ALPHABET_SIZE && Within(clen, MAX_CODELEN) && Codable(clen, data, MAX_CODELEN)
  }

  lemma AllLengths(clen: seq<nat>)
    requires Within(clen, MAX_CODELEN)
    ensures AllIn(clen, InitialMtf())
  {
    forall i | 0 <= i < |clen| ensures clen[i] in InitialMtf() { InitialMtfMembers(clen[i]); }
  }

  /** Code lengths for the codes of the byte code's lengths. */
  ghost predicate LengthCode(clclen: seq<nat>, clen: seq<nat>)
    requires Within(clen, MAX_CODELEN)
  {
    AllLengths(clen);
    |clclen| == TOTAL_CODES && Within(clclen, MAX_CLCLEN)
      && Codable(clclen, MtfCodes(clen, InitialMtf(), 0), MAX_CLCLEN)
  }

  ghost function PrefixBits(clen: seq<nat>, clclen: seq<nat>): seq<bool>
    requires Within(clen, MAX_CODELEN) && LengthCode(clclen, clen)
  {
    AllLengths(clen);
    var n := Trimmed(clclen, TOTAL_CODES);
    ValueBits(n - EXTRA_12OFFSET, 4) + LengthBits(clclen[..n]) + CodesBits(clclen, MtfCodes(clen, InitialMtf(), 0))
  }

  ghost function HuffBits(data: seq<nat>, clen: seq<nat>, clclen: seq<nat>): seq<bool>
    requires ByteCode(clen, data) && LengthCode(clclen, clen)
  {
    ValueBits(0, 3) + PrefixBits(clen, clclen) + CodesBits(clen, data)
  }

  // ----- what the decoder makes of any bits

  function TakeLengths(s: seq<bool>, n: nat): (r: Read<seq<nat>>)
    ensures r.Got? ==> |r.value| == n && Within(r.value, MAX_CLCLEN)
  {
    if n == 0 then Got([], s)
    else
      match TakeBits(s, 4)
      case Got(v, rest) =>
        assert Pow2(4) == 16;
        Prepend([v], TakeLengths(rest, n - 1))
      case _ => OutOfBits
  }

  function Symbols(clen: seq<nat>, s: seq<bool>, n: nat): Read<seq<nat>>
    decreases n
  {
    if n == 0 then Got([], s)
    else
      match DecodeFrom(clen, 0, 0, s)
      case Got(v, rest) => Prepend([v], Symbols(clen, rest, n - 1))
      case _ => Corrupt
  }

  datatype Outcome = Decoded(data: seq<nat>, rest: seq<bool>) | Rejected | SeveralGroups

  function DecodeBytes(clen: seq<nat>, s: seq<bool>, n: nat): Outcome {
    match Symbols(clen, s, n)
    case Got(data, rest) => Decoded(data, rest)
    case _ => Rejected
  }

  function DecodeLengths(clclen: seq<nat>, s: seq<bool>, n: nat): Outcome
    requires |clclen| <= TOTAL_CODES
  {
    match Values(clclen, s, InitialMtf(), ALPHABET_SIZE, 0)
    case Got(clen, rest) => DecodeBytes(clen, rest, n)
    case _ => Rejected
  }

  function DecodePrefix(s: seq<bool>, n: nat): Outcome {
    match TakeBits(s, 4)
    case Got(extra, rest) =>
      assert Pow2(4) == 16;
      (match TakeLengths(rest, extra + EXTRA_12OFFSET)
       case Got(lens, rest2) => DecodeLengths(lens + Same(0, TOTAL_CODES - |lens|), rest2, n)
       case _ => Rejected)
    case _ => Rejected
  }

  /** xd3_decode_huff, for `n` bytes of output. */
  function DecodeSection(s: seq<bool>, n: nat): Outcome {
    if n == 0 then Rejected
    else
      match TakeBits(s, 3)
      case Got(groups, rest) => if groups > 0 then SeveralGroups else DecodePrefix(rest, n)
      case _ => Rejected
  }

  // ----- round trip

  lemma {:induction false} LengthsRoundTrip(s: seq<nat>, rest: seq<bool>)
    requires forall i :: 0 <= i < |s| ==> s[i] <= 15
    ensures TakeLengths(LengthBits(s) + rest, |s|) == Got(s, rest)
    decreases |s|
  {
    if s == [] {
      assert LengthBits(s) + rest == rest;
    } else {
      var tail := LengthBits(s[1..]) + rest;
      assert LengthBits(s) + rest == ValueBits(s[0], 4) + tail;
      assert Pow2(4) == 16;
      TakeWritten(s[0], 4, tail);
      LengthsRoundTrip(s[1..], rest);
      assert [s[0]] + s[1..] == s;
    }
  }

  lemma {:induction false} SymbolsRoundTrip(clen: seq<nat>, data: seq<nat>, rest: seq<bool>, d: nat)
    requires Codable(clen, data, d)
    ensures Symbols(clen, CodesBits(clen, data) + rest, |data|) == Got(data, rest)
    decreases |data|
  {
    hide Room, DecodeFrom;
    if data == [] {
      assert CodesBits(clen, data) + rest == rest;
    } else {
      assert data == [data[0]] + data[1..];
      FirstCodeRead(clen, data[0], data[1..], rest, d);
      SymbolsRoundTrip(clen, data[1..], rest, d);
    }
  }

  lemma PrefixSteps(s: seq<bool>, extra: nat, rest: seq<bool>, lens: seq<nat>, rest2: seq<bool>, n: nat)
    requires TakeBits(s, 4) == Got(extra, rest) && TakeLengths(rest, extra + EXTRA_12OFFSET) == Got(lens, rest2)
    requires extra + EXTRA_12OFFSET <= TOTAL_CODES && |lens| <= TOTAL_CODES
    ensures DecodePrefix(s, n) == DecodeLengths(lens + Same(0, TOTAL_CODES - |lens|), rest2, n)
  {
    hide TakeBits, TakeLengths, DecodeLengths;
  }

  lemma TrailingZeros(clclen: seq<nat>, k: nat)
    requires |clclen| == TOTAL_CODES && Within(clclen, MAX_CLCLEN) && k == Trimmed(clclen, TOTAL_CODES)
    ensures clclen[..k] + Same(0, TOTAL_CODES - k) == clclen
    ensures forall i :: 0 <= i < k ==> clclen[..k][i] <= 15
  {
  }

  lemma LengthCodeRoundTrip(clclen: seq<nat>, k: nat, rest: seq<bool>, n: nat)
    requires |clclen| == TOTAL_CODES && Within(clclen, MAX_CLCLEN) && k == Trimmed(clclen, TOTAL_CODES)
    ensures DecodePrefix(ValueBits(k - EXTRA_12OFFSET, 4) + (LengthBits(clclen[..k]) + rest), n)
            == DecodeLengths(clclen, rest, n)
  {
    hide *;
    TrailingZeros(clclen, k);
    LensRead(clclen[..k], rest, n);
  }

  lemma Sizes()
    ensures Pow2(3) == 8 && Pow2(4) == 16
    ensures EXTRA_12OFFSET == 7 && TOTAL_CODES == 22 && MAX_CODELEN + RUN_1 == 21
  {
    assert Pow2(2) == 4;
  }

  lemma LensRead(lens: seq<nat>, rest: seq<bool>, n: nat)
    requires EXTRA_12OFFSET <= |lens| <= TOTAL_CODES && forall i :: 0 <= i < |lens| ==> lens[i] <= 15
    ensures DecodePrefix(ValueBits(|lens| - EXTRA_12OFFSET, 4) + (LengthBits(lens) + rest), n)
            == DecodeLengths(lens + Same(0, TOTAL_CODES - |lens|), rest, n)
  {
    hide *;
    Sizes();
    LengthsRoundTrip(lens, rest);
    var bits := LengthBits(lens) + rest;
    TakeWritten(|lens| - EXTRA_12OFFSET, 4, bits);
    PrefixSteps(ValueBits(|lens| - EXTRA_12OFFSET, 4) + bits, |lens| - EXTRA_12OFFSET, bits, lens, rest, n);
  }

  /** The bits of a section, part by part. */
  lemma SectionParts(data: seq<nat>, clen: seq<nat>, clclen: seq<nat>, pad: seq<bool>)
    requires ByteCode(clen, data) && LengthCode(clclen, clen)
    ensures AllIn(clen, InitialMtf()) && InRange(clclen, MtfCodes(clen, InitialMtf(), 0)) && InRange(clen, data)
    ensures var k := Trimmed(clclen, TOTAL_CODES);
            HuffBits(data, clen, clclen) + pad
            == ValueBits(0, 3) + (ValueBits(k - EXTRA_12OFFSET, 4) + (LengthBits(clclen[..k])
               + (CodesBits(clclen, MtfCodes(clen, InitialMtf(), 0)) + (CodesBits(clen, data) + pad))))
  {
    hide *;
    SectionInRange(data, clen, clclen);
    BitsParts(data, clen, clclen);
    PrefixParts(clen, clclen);
    var k := Trimmed(clclen, TOTAL_CODES);
    Regroup(ValueBits(0, 3), ValueBits(k - EXTRA_12OFFSET, 4), LengthBits(clclen[..k]),
            CodesBits(clclen, MtfCodes(clen, InitialMtf(), 0)), CodesBits(clen, data), pad);
  }

  lemma SectionInRange(data: seq<nat>, clen: seq<nat>, clclen: seq<nat>)
    requires ByteCode(clen, data) && LengthCode(clclen, clen)
    ensures AllIn(clen, InitialMtf()) && InRange(clclen, MtfCodes(clen, InitialMtf(), 0)) && InRange(clen, data)
    ensures |clen| == ALPHABET_SIZE && Within(clen, MAX_CODELEN) && Codable(clen, data, MAX_CODELEN)
    ensures |clclen| == TOTAL_CODES
  {
    hide AllIn, MtfCodes, InitialMtf, Within;
    AllLengths(clen);
  }

  lemma PrefixParts(clen: seq<nat>, clclen: seq<nat>)
    requires Within(clen, MAX_CODELEN) && LengthCode(clclen, clen) && |clclen| == TOTAL_CODES
    requires AllIn(clen, InitialMtf()) && InRange(clclen, MtfCodes(clen, InitialMtf(), 0))
    ensures var k := Trimmed(clclen, TOTAL_CODES);
            PrefixBits(clen, clclen)
            == ValueBits(k - EXTRA_12OFFSET, 4) + LengthBits(clclen[..k])
               + CodesBits(clclen, MtfCodes(clen, InitialMtf(), 0))
  {
    hide AllIn, MtfCodes, InitialMtf, Within, LengthCode, Trimmed, ValueBits, LengthBits, CodesBits, InRange;
  }

  lemma Regroup(a: seq<bool>, b: seq<bool>, c: seq<bool>, d: seq<bool>, e: seq<bool>, f: seq<bool>)
    ensures a + (b + c + d) + e + f == a + (b + (c + (d + (e + f))))
  {
    assert a + (b + c + d) + e + f == a + b + c + d + e + f == a + (b + (c + (d + (e + f))));
  }

  lemma SectionSteps(s: seq<bool>, n: nat, rest: seq<bool>)
    requires n > 0 && TakeBits(s, 3) == Got(0, rest)
    ensures DecodeSection(s, n) == DecodePrefix(rest, n)
  {
    hide DecodePrefix, TakeBits;
  }

  lemma LengthsSteps(clclen: seq<nat>, s: seq<bool>, n: nat, clen: seq<nat>, rest: seq<bool>, data: seq<nat>,
                     rest2: seq<bool>)
    requires |clclen| <= TOTAL_CODES && Values(clclen, s, InitialMtf(), ALPHABET_SIZE, 0) == Got(clen, rest)
    requires Symbols(clen, rest, n) == Got(data, rest2)
    ensures DecodeLengths(clclen, s, n) == Decoded(data, rest2)
  {
    hide Values, Symbols;
  }

  /** The section round trip: any bytes, with any code lengths that suit them, come back, and
      nothing but the padding of the last byte is left. */
  lemma SectionRoundTrip(data: seq<nat>, clen: seq<nat>, clclen: seq<nat>, pad: seq<bool>)
    requires data != [] && ByteCode(clen, data) && LengthCode(clclen, clen)
    ensures DecodeSection(HuffBits(data, clen, clclen) + pad, |data|) == Decoded(data, pad)
  {
    hide *;
    SectionSizes(data, clen, clclen);
    SectionParts(data, clen, clclen, pad);
    var codes, k := MtfCodes(clen, InitialMtf(), 0), Trimmed(clclen, TOTAL_CODES);
    var s3 := CodesBits(clen, data) + pad;
    var s2 := CodesBits(clclen, codes) + s3;
    var s1 := ValueBits(k - EXTRA_12OFFSET, 4) + (LengthBits(clclen[..k]) + s2);
    TakeWritten(0, 3, s1);
    SectionSteps(ValueBits(0, 3) + s1, |data|, s1);
    LengthCodeRoundTrip(clclen, k, s2, |data|);
    CodesRoundTrip(data, clen, clclen, codes, pad);
  }

  lemma SectionSizes(data: seq<nat>, clen: seq<nat>, clclen: seq<nat>)
    requires ByteCode(clen, data) && LengthCode(clclen, clen)
    ensures |clclen| == TOTAL_CODES && Within(clclen, MAX_CLCLEN) && Within(clen, MAX_CODELEN)
  {
  }

  lemma CodesRoundTrip(data: seq<nat>, clen: seq<nat>, clclen: seq<nat>, codes: seq<nat>, pad: seq<bool>)
    requires ByteCode(clen, data) && LengthCode(clclen, clen)
    requires AllIn(clen, InitialMtf()) && codes == MtfCodes(clen, InitialMtf(), 0) && InRange(clclen, codes)
             && InRange(clen, data)
    ensures DecodeLengths(clclen, CodesBits(clclen, codes) + (CodesBits(clen, data) + pad), |data|)
            == Decoded(data, pad)
  {
    hide CodesBits, Trimmed, MtfCodes, Room, InitialMtf, Codable, Values, Symbols, DecodeLengths, AllIn, InRange,
         Within;
    var s3 := CodesBits(clen, data) + pad;
    ValuesRoundTrip(clclen, clen, InitialMtf(), 0, s3, MAX_CLCLEN);
    assert Same(InitialMtf()[0], 0) + clen == clen;
    SymbolsRoundTrip(clen, data, pad, MAX_CODELEN);
    LengthsSteps(clclen, CodesBits(clclen, codes) + s3, |data|, clen, s3, data, pad);
  }

  // ----- the encoder

  lemma {:induction false} RunCodesSmall(n: nat)
    ensures forall i :: 0 <= i < |RunCodes(n)| ==> RunCodes(n)[i] <= RUN_1
    ensures n > 0 ==> RunCodes(n) != []
    decreases n
  {
    if n > 0 { RunCodesSmall((n - 1) / 2); }
  }

  lemma {:induction false} MtfCodesSmall(syms: seq<nat>, mtf: seq<nat>, run: nat)
    requires AllIn(syms, mtf) && mtf != []
    ensures forall i :: 0 <= i < |MtfCodes(syms, mtf, run)| ==> MtfCodes(syms, mtf, run)[i] <= |mtf|
    ensures syms != [] || run > 0 ==> MtfCodes(syms, mtf, run) != []
    decreases |syms|
  {
    RunCodesSmall(run);
    if syms != [] {
      assert syms == [syms[0]] + syms[1..];
      MtfStep(syms[0], syms[1..], mtf, run);
      var j := IndexOf(mtf, syms[0]);
      if j == 0 {
        MtfCodesSmall(syms[1..], mtf, run + 1);
      } else {
        MtfCodesSmall(syms[1..], ToFront(mtf, j), 0);
      }
    }
  }

  /** Enough room under the length limits for every alphabet in use. */
  lemma FibValues()
    ensures Fib(MAX_CODELEN + 3) > 2 * ALPHABET_SIZE && Fib(MAX_CLCLEN + 3) > 2 * TOTAL_CODES
  {
    assert Fib(5) == 5 && Fib(6) == 8;
    assert Fib(8) == 21 && Fib(9) == 34;
    assert Fib(11) == 89 && Fib(12) == 144;
    assert Fib(14) == 377 && Fib(15) == 610;
    FibGrows(15, MAX_CODELEN + 3);
    FibGrows(15, MAX_CLCLEN + 3);
  }

  lemma PositiveCount(s: seq<nat>, c: nat)
    requires c in s
    ensures Count(s, c) > 0
  {
    var i :| 0 <= i < |s| && s[i] == c;
    CountPositive(s, i);
  }

  /** Code lengths built for some counts can code what was counted. */
  lemma BuiltCodable(freq: seq<nat>, ws: seq<nat>, rescaled: bool, clen: seq<nat>, d: nat, data: seq<nat>)
    requires Justified(freq, ws, rescaled) && GoodLengths(ws, clen, d)
    requires forall i :: 0 <= i < |data| ==> data[i] < |freq|
    requires forall c :: 0 <= c < |freq| ==> freq[c] == Count(data, c)
    ensures Codable(clen, data, d)
  {
    KraftMakesRoom(ws, clen, d);
    forall i | 0 <= i < |data| ensures HasCode(clen, data[i], d) {
      PositiveCount(data, data[i]);
    }
  }

  method CountFreqs(input: seq<byte>) returns (freq: seq<nat>)
    ensures |freq| == ALPHABET_SIZE && forall c :: 0 <= c < |freq| ==> freq[c] == Count(input, c)
  {
    freq := seq(ALPHABET_SIZE, i => 0);
    assert input[..0] == [];
    for i := 0 to |input|
      invariant |freq| == ALPHABET_SIZE && forall c :: 0 <= c < |freq| ==> freq[c] == Count(input[..i], c)
    {
      forall c ensures Count(input[..i + 1], c) == Count(input[..i], c) + if input[i] == c then 1 else 0 {
        CountStep(input, i, c);
      }
      freq := freq[input[i] := freq[input[i]] + 1];
    }
    assert input[..|input|] == input;
  }

  method EncodeSymbols(w: BitWriter, clen: seq<nat>, code: array<nat>, data: seq<nat>, d: nat)
    requires w.Valid() && Codable(clen, data, d) && code.Length == |clen|
    requires forall i :: 0 <= i < |clen| && clen[i] > 0 ==> code[i] == CodeOf(clen, i)
    modifies w
    ensures w.Valid() && w.Bits() == old(w.Bits()) + CodesBits(clen, data)
  {
    assert data[..0] == [] && CodesBits(clen, []) == [];
    hide BitWriter.Valid, BitWriter.Bits, CodesBits, CodeOf, ValueBits, Room, First, Codes;
    ghost var was := w.Bits();
    for i := 0 to |data|
      invariant w.Valid() && w.Bits() == was + CodesBits(clen, data[..i])
    {
      var c := data[i];
      assert HasCode(clen, c, d);
      CodeFits(clen, c, d);
      w.EncodeBits(clen[c], code[c]);
      OneMore(clen, data, i, was);
    }
    assert data[..|data|] == data;
  }

  lemma OneMore(clen: seq<nat>, data: seq<nat>, i: nat, was: seq<bool>)
    requires InRange(clen, data) && i < |data|
    ensures was + CodesBits(clen, data[..i + 1]) == was + CodesBits(clen, data[..i]) + CodeBits(clen, data[i])
  {
    assert data[..i + 1] == data[..i] + [data[i]];
    CodesBitsAppend(clen, data[..i], [data[i]]);
    OneCode(clen, data[i]);
  }

  lemma OneCode(clen: seq<nat>, c: nat)
    requires c < |clen|
    ensures InRange(clen, [c]) && CodesBits(clen, [c]) == CodeBits(clen, c)
  {
    assert CodesBits(clen, [c]) == CodeBits(clen, c) + CodesBits(clen, []);
  }

  method EncodeLengths(w: BitWriter, lens: seq<nat>)
    requires w.Valid() && forall i :: 0 <= i < |lens| ==> lens[i] <= 15
    modifies w
    ensures w.Valid() && w.Bits() == old(w.Bits()) + LengthBits(lens)
  {
    assert Pow2(4) == 16;
    assert lens[0..] == lens;
    hide BitWriter.Valid, BitWriter.Bits, LengthBits, ValueBits, Pow2;
    ghost var all := w.Bits() + LengthBits(lens);
    for i := 0 to |lens|
      invariant w.Valid() && w.Bits() + LengthBits(lens[i..]) == all
    {
      OneLength(lens, i, w.Bits());
      w.EncodeBits(4, lens[i]);
    }
    NoLengths(lens, w.Bits());
  }

  lemma NoLengths(lens: seq<nat>, was: seq<bool>)
    ensures was + LengthBits(lens[|lens|..]) == was
  {
    assert lens[|lens|..] == [] && LengthBits([]) == [];
  }

  lemma OneLength(lens: seq<nat>, i: nat, was: seq<bool>)
    requires i < |lens|
    ensures was + LengthBits(lens[i..]) == was + ValueBits(lens[i], 4) + LengthBits(lens[i + 1..])
  {
    assert lens[i..][1..] == lens[i + 1..];
  }

  /** The codes of the code lengths, and a Huffman code for them. */
  method CodeTheLengths(clen: seq<nat>) returns (codes: seq<nat>, clclen: seq<nat>)
    requires |clen| == ALPHABET_SIZE && Within(clen, MAX_CODELEN)
    ensures LengthCode(clclen, clen)
    ensures AllIn(clen, InitialMtf()) && codes == MtfCodes(clen, InitialMtf(), 0)
  {
    hide InitialMtf, Fib, Within, MtfCodes, GoodLengths, Justified, Codable, AllIn;
    AllLengths(clen);
    var list := InitialMtf();
    var mtf := new nat[|list|](i requires 0 <= i < |list| => list[i]);
    assert mtf[..] == list;
    var freq := new nat[TOTAL_CODES];
    codes := ComputeMtf12(clen, mtf, freq);
    MtfCodesSmall(clen, InitialMtf(), 0);
    FibValues();
    var counts := freq[..];
    SomeCount(counts, codes);
    var bits;
    ghost var ws, rescaled;
    clclen, bits, ws, rescaled := BuildPrefix(counts, MAX_CLCLEN);
    WithinLimit(ws, clclen, MAX_CLCLEN);
    BuiltCodable(counts, ws, rescaled, clclen, MAX_CLCLEN, codes);
  }

  lemma WithinLimit(ws: seq<nat>, clen: seq<nat>, d: nat)
    requires GoodLengths(ws, clen, d)
    ensures Within(clen, d)
  {
  }

  lemma SomeCount(counts: seq<nat>, codes: seq<nat>)
    requires codes != [] && Counted(counts, codes) && codes[0] < |counts|
    ensures exists i :: 0 <= i < |counts| && counts[i] > 0
  {
    PositiveCount(codes, codes[0]);
    assert counts[codes[0]] > 0;
  }

  /** djw_encode_prefix. */
  method EncodePrefix(w: BitWriter, clen: seq<nat>) returns (ghost clclen: seq<nat>)
    requires w.Valid() && |clen| == ALPHABET_SIZE && Within(clen, MAX_CODELEN)
    modifies w
    ensures w.Valid() && LengthCode(clclen, clen) && w.Bits() == old(w.Bits()) + PrefixBits(clen, clclen)
  {
    ghost var was := w.Bits();
    var codes, cl := CodeTheLengths(clen);
    clclen := cl;
    LengthCodeFacts(cl, clen, codes);
    assert Pow2(4) == 16;
    hide BitWriter.Valid, BitWriter.Bits, LengthBits, ValueBits, Pow2, CodesBits, Codable, MtfCodes, InitialMtf,
         CodeOf, Trimmed, Within, AllIn, LengthCode, PrefixBits;
    var code := BuildCodes(cl, MAX_CLCLEN);
    var n := TrimLengths(cl);
    w.EncodeBits(4, n - EXTRA_12OFFSET);
    EncodeLengths(w, cl[..n]);
    EncodeSymbols(w, cl, code, codes, MAX_CLCLEN);
    PrefixWritten(was, cl, clen, codes);
  }

  lemma LengthCodeFacts(clclen: seq<nat>, clen: seq<nat>, codes: seq<nat>)
    requires Within(clen, MAX_CODELEN) && LengthCode(clclen, clen)
    requires AllIn(clen, InitialMtf()) && codes == MtfCodes(clen, InitialMtf(), 0)
    ensures |clclen| == TOTAL_CODES && (forall i :: 0 <= i < |clclen| ==> clclen[i] <= MAX_CLCLEN)
    ensures Codable(clclen, codes, MAX_CLCLEN) && InRange(clclen, codes)
  {
  }

  lemma PrefixWritten(was: seq<bool>, clclen: seq<nat>, clen: seq<nat>, codes: seq<nat>)
    requires Within(clen, MAX_CODELEN) && LengthCode(clclen, clen) && |clclen| == TOTAL_CODES && InRange(clclen, codes)
    requires AllIn(clen, InitialMtf()) && codes == MtfCodes(clen, InitialMtf(), 0)
    ensures var n := Trimmed(clclen, TOTAL_CODES);
            was + ValueBits(n - EXTRA_12OFFSET, 4) + LengthBits(clclen[..n]) + CodesBits(clclen, codes)
            == was + PrefixBits(clen, clclen)
  {
  }

  method TrimLengths(clclen: seq<nat>) returns (n: nat)
    requires |clclen| == TOTAL_CODES
    ensures n == Trimmed(clclen, TOTAL_CODES)
  {
    n := TOTAL_CODES;
    while n > EXTRA_12OFFSET && clclen[n - 1] == 0
      invariant EXTRA_12OFFSET <= n <= TOTAL_CODES && Trimmed(clclen, n) == Trimmed(clclen, TOTAL_CODES)
    {
      n := n - 1;
    }
  }

  /** What a finished section consists of. */
  ghost predicate IsSection(output: seq<byte>, data: seq<byte>, clen: seq<nat>, clclen: seq<nat>) {
    && ByteCode(clen, data) && LengthCode(clclen, clen)
    && exists n: nat :: n < 8 && Unpacked(output) == HuffBits(data, clen, clclen) + ZeroBits(n)
  }

  /** Code lengths for the bytes, and how many bits the bytes then take. */
  method CodeTheBytes(input: seq<byte>) returns (lens: seq<nat>, bits: nat)
    requires input != []
    ensures ByteCode(lens, input) && InRange(lens, input)
    ensures forall i :: 0 <= i < |lens| ==> lens[i] <= MAX_CODELEN
  {
    hide Within, Fib, GoodLengths, Justified, Codable;
    var freq := CountFreqs(input);
    FibValues();
    SomeCount(freq, input);
    ghost var ws, rescaled;
    lens, bits, ws, rescaled := BuildPrefix(freq, MAX_CODELEN);
    WithinLimit(ws, lens, MAX_CODELEN);
    BuiltCodable(freq, ws, rescaled, lens, MAX_CODELEN, input);
    WithinMeans(lens, MAX_CODELEN);
  }

  /** xd3_encode_huff with one group: nothing when that would not save bits, unless `inefficient`. */
  method EncodeHuff(input: seq<byte>, inefficient: bool)
    returns (r: Option<seq<byte>>, ghost clen: seq<nat>, ghost clclen: seq<nat>)
    requires input != []
    ensures inefficient ==> r.Some?
    ensures r.Some? ==> IsSection(r.value, input, clen, clclen)
  {
    var lens, bits := CodeTheBytes(input);
    assert |lens| == ALPHABET_SIZE && Within(lens, MAX_CODELEN) && Codable(lens, input, MAX_CODELEN);
    assert Pow2(3) > 0;
    hide BitWriter.Valid, BitWriter.Bits, ValueBits, Pow2, CodesBits, Codable, CodeOf, Within, LengthCode, PrefixBits,
         IsSection, ByteCode, InRange;
    var w := new BitWriter();
    w.EncodeBits(3, 0);
    clen, clclen := lens, [];
    if bits + EFFICIENCY_BITS >= 8 * |input| && !inefficient {
      return None, clen, clclen;
    }
    var code := BuildCodes(lens, MAX_CODELEN);
    clclen := EncodePrefix(w, lens);
    if bits + 8 * |w.output| + EFFICIENCY_BITS >= 8 * |input| && !inefficient {
      return None, clen, clclen;
    }
    EncodeSymbols(w, lens, code, input, MAX_CODELEN);
    ghost var all := w.Bits();
    w.Flush();
    SectionWritten(w.output, all, input, lens, clclen);
    r := Some(w.output);
  }

  lemma WithinMeans(clen: seq<nat>, d: nat)
    requires Within(clen, d)
    ensures forall i :: 0 <= i < |clen| ==> clen[i] <= d
  {
  }

  lemma SectionWritten(output: seq<byte>, all: seq<bool>, data: seq<byte>, clen: seq<nat>, clclen: seq<nat>)
    requires |clen| == ALPHABET_SIZE && Within(clen, MAX_CODELEN) && Codable(clen, data, MAX_CODELEN)
             && LengthCode(clclen, clen)
    requires InRange(clen, data) && all == [] + ValueBits(0, 3) + PrefixBits(clen, clclen) + CodesBits(clen, data)
    requires exists n: nat :: n < 8 && Unpacked(output) == all + ZeroBits(n)
    ensures IsSection(output, data, clen, clclen)
  {
    hide *;
    BitsParts(data, clen, clclen);
    assert [] + ValueBits(0, 3) == ValueBits(0, 3);
    SectionFrom(output, data, clen, clclen);
  }

  lemma BitsParts(data: seq<nat>, clen: seq<nat>, clclen: seq<nat>)
    requires |clen| == ALPHABET_SIZE && Within(clen, MAX_CODELEN) && Codable(clen, data, MAX_CODELEN)
             && LengthCode(clclen, clen)
    requires InRange(clen, data)
    ensures ByteCode(clen, data)
    ensures HuffBits(data, clen, clclen) == ValueBits(0, 3) + PrefixBits(clen, clclen) + CodesBits(clen, data)
  {
    hide Codable, LengthCode, PrefixBits, CodesBits, ValueBits, InRange;
  }

  lemma SectionFrom(output: seq<byte>, data: seq<byte>, clen: seq<nat>, clclen: seq<nat>)
    requires ByteCode(clen, data) && LengthCode(clclen, clen)
    requires exists n: nat :: n < 8 && Unpacked(output) == HuffBits(data, clen, clclen) + ZeroBits(n)
    ensures IsSection(output, data, clen, clclen)
  {
    hide LengthCode, HuffBits, ByteCode, Unpacked, ZeroBits;
  }

  // ----- the decoder

  lemma {:induction false} ValuesMembers(clen: seq<nat>, s: seq<bool>, mtf: seq<nat>, left: nat, shift: nat)
    requires 0 < |mtf| && |clen| <= |mtf| + RUN_1
    ensures var r := Values(clen, s, mtf, left, shift);
            r.Got? ==> |r.value| == left && forall i :: 0 <= i < left ==> r.value[i] in mtf
    decreases |s|
  {
    hide *;
    if left == 0 {
      NoValues(clen, s, mtf, shift);
    } else {
      DecodesWithin(clen, s);
      var r := DecodeFrom(clen, 0, 0, s);
      ValuesStep(clen, s, mtf, left, shift);
      if r.Got? {
        if r.value <= RUN_1 {
          var rep := Reps(r.value + 1, shift);
          if rep <= left {
            var next := Values(clen, r.rest, mtf, left - rep, shift + 1);
            ValuesMembers(clen, r.rest, mtf, left - rep, shift + 1);
            if next.Got? { SameMembers(mtf, rep, next.value); }
          }
        } else {
          var next := Values(clen, r.rest, ToFront(mtf, r.value - RUN_1), left - 1, 0);
          ToFrontMembers(mtf, r.value - RUN_1);
          ValuesMembers(clen, r.rest, ToFront(mtf, r.value - RUN_1), left - 1, 0);
          if next.Got? { OneMember(mtf, mtf[r.value - RUN_1], next.value); }
        }
      }
    }
  }

  lemma NoValues(clen: seq<nat>, s: seq<bool>, mtf: seq<nat>, shift: nat)
    requires 0 < |mtf| && |clen| <= |mtf| + RUN_1
    ensures Values(clen, s, mtf, 0, shift) == Got([], s)
  {
  }

  lemma ValuesStep(clen: seq<nat>, s: seq<bool>, mtf: seq<nat>, left: nat, shift: nat)
    requires 0 < |mtf| && |clen| <= |mtf| + RUN_1 && left > 0
    ensures var r, all := DecodeFrom(clen, 0, 0, s), Values(clen, s, mtf, left, shift);
            if !r.Got? then all == Corrupt
            else if r.value <= RUN_1 then
              var rep := Reps(r.value + 1, shift);
              if rep > left then all == Corrupt
              else
                var next := Values(clen, r.rest, mtf, left - rep, shift + 1);
                all.Got? == next.Got? && (all.Got? ==> all.value == Same(mtf[0], rep) + next.value)
            else
              && r.value - RUN_1 < |mtf|
              && var next := Values(clen, r.rest, ToFront(mtf, r.value - RUN_1), left - 1, 0);
                 all.Got? == next.Got? && (all.Got? ==> all.value == [mtf[r.value - RUN_1]] + next.value)
  {
    hide DecodeFrom, Reps, Same, ToFront;
  }

  lemma SameMembers(mtf: seq<nat>, rep: nat, s: seq<nat>)
    requires mtf != [] && forall i :: 0 <= i < |s| ==> s[i] in mtf
    ensures var r := Same(mtf[0], rep) + s; |r| == rep + |s| && forall i :: 0 <= i < |r| ==> r[i] in mtf
  {
  }

  lemma OneMember(mtf: seq<nat>, x: nat, s: seq<nat>)
    requires x in mtf && forall i :: 0 <= i < |s| ==> s[i] in mtf
    ensures var r := [x] + s; |r| == 1 + |s| && forall i :: 0 <= i < |r| ==> r[i] in mtf
  {
  }

  lemma DecodesWithin(clen: seq<nat>, s: seq<bool>)
    ensures var r := DecodeFrom(clen, 0, 0, s); r.Got? ==> |r.rest| < |s| && r.value < |clen|
  {
  }

  /** Whatever is decoded as code lengths is small enough for the tables. */
  lemma LengthsSmall(clclen: seq<nat>, s: seq<bool>)
    requires |clclen| <= TOTAL_CODES
    ensures var r := Values(clclen, s, InitialMtf(), ALPHABET_SIZE, 0);
            r.Got? ==> |r.value| == ALPHABET_SIZE && forall i :: 0 <= i < |r.value| ==> r.value[i] <= MAX_CODELEN
  {
    ValuesMembers(clclen, s, InitialMtf(), ALPHABET_SIZE, 0);
    forall l | l in InitialMtf() ensures l <= MAX_CODELEN { InitialMtfMembers(l); }
  }

  method DecodeClclen(reader: BitReader) returns (ok: bool, clclen: seq<nat>)
    requires reader.Valid()
    modifies reader
    ensures reader.Valid()
    ensures ok ==> |clclen| == TOTAL_CODES && forall i :: 0 <= i < |clclen| ==> clclen[i] <= MAX_CLCLEN
    ensures forall n: nat ::
              DecodePrefix(old(reader.Rest()), n) == if ok then DecodeLengths(clclen, reader.Rest(), n) else Rejected
  {
    hide BitReader.Valid, BitReader.Rest, DecodeLengths, TakeLengths;
    assert Pow2(4) == 16;
    ghost var all := reader.Rest();
    var extra;
    ok, extra := reader.DecodeBits(4);
    if !ok {
      return false, [];
    }
    ghost var rest := reader.Rest();
    var num := extra + EXTRA_12OFFSET;
    clclen := [];
    PrependNothing(TakeLengths(rest, num));
    while |clclen| < num
      invariant reader.Valid() && |clclen| <= num && Within(clclen, MAX_CLCLEN)
      invariant TakeLengths(rest, num) == Prepend(clclen, TakeLengths(reader.Rest(), num - |clclen|))
      decreases num - |clclen|
    {
      ghost var s := reader.Rest();
      LengthTaken(clclen, s, num - |clclen|);
      var v;
      ok, v := reader.DecodeBits(4);
      if !ok {
        return false, [];
      }
      clclen := clclen + [v];
    }
    LengthsTaken(clclen, reader.Rest());
    clclen := clclen + Same(0, TOTAL_CODES - |clclen|);
    ok := true;
  }

  lemma LengthTaken(before: seq<nat>, s: seq<bool>, n: nat)
    requires n > 0
    ensures match TakeBits(s, 4)
            case Got(v, rest) => v <= MAX_CLCLEN
              && Prepend(before, TakeLengths(s, n)) == Prepend(before + [v], TakeLengths(rest, n - 1))
            case _ => !Prepend(before, TakeLengths(s, n)).Got?
  {
    assert Pow2(4) == 16;
    match TakeBits(s, 4)
    case Got(v, rest) => PrependParts(before, [v], TakeLengths(rest, n - 1));
    case _ =>
  }

  lemma LengthsTaken(clclen: seq<nat>, s: seq<bool>)
    ensures Prepend(clclen, TakeLengths(s, 0)) == Got(clclen, s)
  {
    assert clclen + [] == clclen;
  }

  method DecodeData(reader: BitReader, t: Tables, ghost clen: seq<nat>, n: nat) returns (ok: bool, data: seq<nat>)
    requires reader.Valid() && Tabulates(t, clen)
    modifies reader
    ensures reader.Valid() && DecodeBytes(clen, old(reader.Rest()), n)
            == if ok then Decoded(data, reader.Rest()) else Rejected
  {
    hide BitReader.Valid, BitReader.Rest, Tabulates, DecodeFrom, Symbols;
    ghost var all := reader.Rest();
    data := [];
    PrependNothing(Symbols(clen, all, n));
    while |data| < n
      invariant reader.Valid() && |data| <= n
      invariant Symbols(clen, all, n) == Prepend(data, Symbols(clen, reader.Rest(), n - |data|))
      decreases n - |data|
    {
      SymbolTaken(clen, data, reader.Rest(), n - |data|);
      var sym;
      ok, sym := DecodeSymbol(reader, t, clen);
      if !ok {
        return;
      }
      data := data + [sym];
    }
    SymbolsTaken(clen, data, reader.Rest());
    ok := true;
  }

  lemma SymbolTaken(clen: seq<nat>, before: seq<nat>, s: seq<bool>, n: nat)
    requires n > 0
    ensures match DecodeFrom(clen, 0, 0, s)
            case Got(v, rest) => Prepend(before, Symbols(clen, s, n))
              == Prepend(before + [v], Symbols(clen, rest, n - 1))
            case _ => !Prepend(before, Symbols(clen, s, n)).Got?
  {
    hide DecodeFrom;
    match DecodeFrom(clen, 0, 0, s)
    case Got(v, rest) => PrependParts(before, [v], Symbols(clen, rest, n - 1));
    case _ =>
  }

  lemma SymbolsTaken(clen: seq<nat>, data: seq<nat>, s: seq<bool>)
    ensures Prepend(data, Symbols(clen, s, 0)) == Got(data, s)
  {
    assert data + [] == data;
  }

  datatype Status = Done | Invalid | Unmodelled

  /** xd3_decode_huff: the bytes, and the input that was not needed for them. */
  method DecodeHuff(input: seq<byte>, n: nat) returns (status: Status, output: seq<nat>, unread: seq<byte>)
    ensures match DecodeSection(Unpacked(input), n)
            case Decoded(data, rest) => status == Done && output == data && (|rest| < 8 ==> unread == [])
            case Rejected => status == Invalid
            case SeveralGroups => status == Unmodelled
  {
    hide BitReader.Valid, BitReader.Rest, DecodePrefix, DecodeLengths, DecodeBytes, Values, Tabulates, Unpacked,
         InitialMtf, TakeBits;
    output, unread := [], input;
    if n == 0 {
      return Invalid, [], input;
    }
    assert Pow2(3) == 8;
    var reader := new BitReader(input);
    var ok, groups := reader.DecodeBits(3);
    if !ok {
      return Invalid, [], reader.input;
    }
    if groups > 0 {
      return Unmodelled, [], reader.input;
    }
    var clclen;
    ok, clclen := DecodeClclen(reader);
    if !ok {
      return Invalid, [], reader.input;
    }
    ok, output := DecodeCodes(reader, clclen, n);
    reader.AlmostDone();
    return if ok then Done else Invalid, output, reader.input;
  }

  /** The byte code's lengths, then the bytes. */
  method DecodeCodes(reader: BitReader, clclen: seq<nat>, n: nat) returns (ok: bool, output: seq<nat>)
    requires reader.Valid() && |clclen| == TOTAL_CODES && forall i :: 0 <= i < |clclen| ==> clclen[i] <= MAX_CLCLEN
    modifies reader
    ensures reader.Valid() && DecodeLengths(clclen, old(reader.Rest()), n)
            == if ok then Decoded(output, reader.Rest()) else Rejected
  {
    hide *;
    Sizes();
    LengthsSmall(clclen, reader.Rest());
    LengthsSplit(clclen, reader.Rest(), n);
    var clTables := BuildDecoder(clclen, MAX_CLCLEN);
    var list := InitialMtf();
    var mtf := new nat[|list|](i requires 0 <= i < |list| => list[i]);
    assert mtf[..] == list;
    var clen;
    ok, clen := Decode12(reader, clTables, clclen, mtf, ALPHABET_SIZE);
    if !ok {
      return false, [];
    }
    var tables := BuildDecoder(clen, MAX_CODELEN);
    ok, output := DecodeData(reader, tables, clen, n);
  }

  lemma LengthsSplit(clclen: seq<nat>, s: seq<bool>, n: nat)
    requires |clclen| <= TOTAL_CODES
    ensures match Values(clclen, s, InitialMtf(), ALPHABET_SIZE, 0)
            case Got(clen, rest) => DecodeLengths(clclen, s, n) == DecodeBytes(clen, rest, n)
            case _ => DecodeLengths(clclen, s, n) == Rejected
  {
  }

  /** What xd3_encode_huff produces xd3_decode_huff turns back, and less than a byte is left over. */
  lemma SectionDecodes(output: seq<byte>, data: seq<byte>, clen: seq<nat>, clclen: seq<nat>)
    requires data != [] && IsSection(output, data, clen, clclen)
    ensures var r := DecodeSection(Unpacked(output), |data|);
            r.Decoded? && r.data == data && |r.rest| < 8
  {
    var n: nat :| n < 8 && Unpacked(output) == HuffBits(data, clen, clclen) + ZeroBits(n);
    SectionRoundTrip(data, clen, clclen, ZeroBits(n));
  }

  /** Both directions together: the bytes come back and all the input is used. */
  method RoundTrip(input: seq<byte>) returns (output: seq<nat>)
    requires input != []
    ensures output == input
  {
    hide IsSection, DecodeSection;
    var r;
    ghost var clen, clclen;
    r, clen, clclen := EncodeHuff(input, true);
    SectionDecodes(r.value, input, clen, clclen);
    var status, unread;
    status, output, unread := DecodeHuff(r.value, |input|);
    assert status == Done && unread == [];
  }
}
