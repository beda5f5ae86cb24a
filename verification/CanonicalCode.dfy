/**
 Canonical prefix codes: the codes that djw_build_codes assigns to code lengths, the tables that
 djw_build_decoder makes from the same lengths, and that the tables find every code's symbol.
 A code length of zero means that the symbol has no code.
 */
module CanonicalCode {
  import opened Arithmetic
  import opened Huffman
  import opened BitPacking
  import opened Bytes

  // ----- the codes

  function Count(clen: seq<nat>, l: nat): nat {
    if clen == [] then 0 else Count(clen[..|clen| - 1], l) + if clen[|clen| - 1] == l then 1 else 0
  }

  /** Number of codes of length `l`. */
  function Codes(clen: seq<nat>, l: nat): nat {
    if l == 0 then 0 else Count(clen, l)
  }

  /** The first code of length `l`, in the order of the codes. */
  function First(clen: seq<nat>, l: nat): nat {
    if l == 0 then 0 else 2 * (First(clen, l - 1) + Codes(clen, l - 1))
  }

  /** The code of symbol `i`: consecutive among those of its length. */
  function CodeOf(clen: seq<nat>, i: nat): nat
    requires i < |clen|
  {
    First(clen, clen[i]) + Count(clen[..i], clen[i])
  }

  function CodeBits(clen: seq<nat>, i: nat): (r: seq<bool>)
    requires i < |clen|
    ensures |r| == clen[i]
  {
    ValueBits(CodeOf(clen, i), clen[i])
  }

  lemma {:induction false} CountPrefix(clen: seq<nat>, i: nat, l: nat)
    requires i <= |clen|
    ensures Count(clen[..i], l) <= Count(clen, l)
    ensures i < |clen| && clen[i] == l ==> Count(clen[..i], l) < Count(clen, l)
    decreases |clen|
  {
    if i == |clen| {
      assert clen[..i] == clen;
    } else if i < |clen| - 1 {
      CountPrefix(clen[..|clen| - 1], i, l);
      assert clen[..|clen| - 1][..i] == clen[..i];
    }
  }

  lemma CountStep(clen: seq<nat>, i: nat, l: nat)
    requires i < |clen|
    ensures Count(clen[..i + 1], l) == Count(clen[..i], l) + if clen[i] == l then 1 else 0
  {
    assert clen[..i + 1][..i] == clen[..i];
  }

  // ----- they fit their lengths

  /** Kraft's sum over the codes of at most `l` bits. */
  function Short(clen: seq<nat>, l: nat, d: nat): nat {
    if clen == [] then 0
    else
      var n := clen[|clen| - 1];
      Short(clen[..|clen| - 1], l, d) + if 0 < n <= l && n <= d then Pow2(d - n) else 0
  }

  lemma {:induction false} ShortStep(clen: seq<nat>, l: nat, d: nat)
    requires 0 < l <= d
    ensures Short(clen, l, d) == Short(clen, l - 1, d) + Count(clen, l) * Pow2(d - l)
    decreases |clen|
  {
    if clen != [] {
      ShortStep(clen[..|clen| - 1], l, d);
      OneTimes(Count(clen[..|clen| - 1], l), Pow2(d - l));
    }
  }

  lemma OneTimes(c: nat, p: nat)
    ensures (c + 1) * p == c * p + p
  {
  }

  lemma {:induction false} ShortIsFirst(clen: seq<nat>, l: nat, d: nat)
    requires l <= d
    ensures Short(clen, l, d) == (First(clen, l) + Codes(clen, l)) * Pow2(d - l)
    decreases l
  {
    hide Short, Count;
    if l == 0 {
      NoneShort(clen, d);
    } else {
      ShortIsFirst(clen, l - 1, d);
      ShortStep(clen, l, d);
      TwiceAnd(First(clen, l - 1) + Codes(clen, l - 1), Count(clen, l), Pow2(d - l));
    }
  }

  lemma TwiceAnd(s: nat, c: nat, p: nat)
    ensures s * (2 * p) + c * p == (2 * s + c) * p
  {
  }

  lemma CancelFactor(x: nat, y: nat, p: nat)
    requires p > 0 && x * p <= y * p
    ensures x <= y
  {
    if y < x { MulGap(p, y, x); }
  }

  lemma {:induction false} NoneShort(clen: seq<nat>, d: nat)
    ensures Short(clen, 0, d) == 0
    decreases |clen|
  {
    if clen != [] { NoneShort(clen[..|clen| - 1], d); }
  }

  lemma {:induction false} ShortBelowKraft(ws: seq<nat>, clen: seq<nat>, l: nat, d: nat)
    requires |ws| == |clen| && l <= d && forall i :: 0 <= i < |ws| ==> (clen[i] > 0 ==> ws[i] > 0)
    ensures Short(clen, l, d) <= Kraft(ws, clen, d)
    decreases |clen|
  {
    if clen != [] {
      var n := |clen| - 1;
      ShortBelowKraft(ws[..n], clen[..n], l, d);
      assert Terms(ws, clen, d)[..n] == Terms(ws[..n], clen[..n], d);
    }
  }

  /** The lengths leave room for all the codes of each length. */
  ghost predicate Room(clen: seq<nat>, d: nat) {
    forall l: nat :: l <= d ==> First(clen, l) + Codes(clen, l) <= Pow2(l)
  }

  /** Kraft's inequality is what makes room. */
  lemma KraftMakesRoom(ws: seq<nat>, clen: seq<nat>, d: nat)
    requires |ws| == |clen| && (forall i :: 0 <= i < |ws| ==> (clen[i] > 0 ==> ws[i] > 0))
    requires Kraft(ws, clen, d) <= Pow2(d)
    ensures Room(clen, d)
  {
    hide First, Codes, Short, Kraft, Pow2;
    forall l: nat | l <= d ensures First(clen, l) + Codes(clen, l) <= Pow2(l) {
      ShortIsFirst(clen, l, d);
      ShortBelowKraft(ws, clen, l, d);
      PowAdds(l, d - l);
      CancelFactor(First(clen, l) + Codes(clen, l), Pow2(l), Pow2(d - l));
    }
  }

  lemma CodeFits(clen: seq<nat>, i: nat, d: nat)
    requires i < |clen| && 0 < clen[i] <= d && Room(clen, d)
    ensures First(clen, clen[i]) <= CodeOf(clen, i) < First(clen, clen[i]) + Codes(clen, clen[i]) <= Pow2(clen[i])
  {
    CountPrefix(clen, i, clen[i]);
  }

  // ----- djw_build_codes

  lemma {:induction false} NoneBelow(clen: seq<nat>, l: nat)
    requires forall i :: 0 <= i < |clen| ==> clen[i] != l
    ensures Count(clen, l) == 0
    decreases |clen|
  {
    if clen != [] { NoneBelow(clen[..|clen| - 1], l); }
  }

  lemma {:induction false} FirstIsZero(clen: seq<nat>, l: nat)
    requires forall i :: 0 <= i < |clen| && clen[i] > 0 ==> l <= clen[i]
    ensures First(clen, l) == 0
    decreases l
  {
    if l > 0 {
      FirstIsZero(clen, l - 1);
      if l > 1 { NoneBelow(clen, l - 1); }
    }
  }

  method BuildCodes(clen: seq<nat>, maxCodelen: nat) returns (codes: array<nat>)
    requires 0 < maxCodelen && forall i :: 0 <= i < |clen| ==> clen[i] <= maxCodelen
    ensures codes.Length == |clen| && fresh(codes)
    ensures forall i :: 0 <= i < |clen| && clen[i] > 0 ==> codes[i] == CodeOf(clen, i)
  {
    codes := new nat[|clen|];
    var lo, hi := maxCodelen, 0;
    for i := 0 to |clen|
      invariant 0 < lo <= maxCodelen && hi <= maxCodelen
      invariant forall k :: 0 <= k < i && clen[k] > 0 ==> lo <= clen[k] <= hi
    {
      if clen[i] > 0 && clen[i] < lo { lo := clen[i]; }
      if hi < clen[i] { hi := clen[i]; }
    }
    FirstIsZero(clen, lo);
    var code := 0;
    var l := lo;
    while l <= hi
      invariant lo <= l && code == First(clen, l)
      invariant forall i :: 0 <= i < |clen| && 0 < clen[i] < l ==> codes[i] == CodeOf(clen, i)
      decreases hi + 1 - l
    {
      code := CodesOfLength(clen, l, code, codes);
      code, l := 2 * code, l + 1;
    }
  }

  /** The inner loop: numbers the codes of one length. */
  method CodesOfLength(clen: seq<nat>, l: nat, first: nat, codes: array<nat>) returns (code: nat)
    requires 0 < l && codes.Length == |clen| && first == First(clen, l)
    requires forall i :: 0 <= i < |clen| && 0 < clen[i] < l ==> codes[i] == CodeOf(clen, i)
    modifies codes
    ensures code == first + Codes(clen, l)
    ensures forall i :: 0 <= i < |clen| && 0 < clen[i] <= l ==> codes[i] == CodeOf(clen, i)
  {
    code := first;
    assert clen[..0] == [];
    for i := 0 to |clen|
      invariant code == first + Count(clen[..i], l)
      invariant forall k :: 0 <= k < |clen| && 0 < clen[k] < l ==> codes[k] == CodeOf(clen, k)
      invariant forall k :: 0 <= k < i && clen[k] == l ==> codes[k] == CodeOf(clen, k)
    {
      CountStep(clen, i, l);
      if clen[i] == l {
        codes[i] := code;
        code := code + 1;
      }
    }
    assert clen[..|clen|] == clen;
  }

  // ----- decoding a symbol

  /** The symbol with the `k`-th code of length `l`. */
  function SymbolWith(clen: seq<nat>, l: nat, k: nat): (i: nat)
    requires k < Count(clen, l)
    ensures i < |clen| && clen[i] == l && Count(clen[..i], l) == k
  {
    var n := |clen| - 1;
    if clen[n] == l && Count(clen[..n], l) == k then n
    else
      var i := SymbolWith(clen[..n], l, k);
      assert clen[..n][..i] == clen[..i];
      i
  }

  lemma CountOrder(clen: seq<nat>, i: nat, j: nat)
    requires i < j <= |clen|
    ensures Count(clen[..i], clen[i]) < Count(clen[..j], clen[i])
  {
    assert clen[..j][..i] == clen[..i];
    CountPrefix(clen[..j], i, clen[i]);
  }

  lemma SymbolUnique(clen: seq<nat>, i: nat, j: nat)
    requires i < |clen| && j < |clen| && clen[i] == clen[j] && Count(clen[..i], clen[i]) == Count(clen[..j], clen[j])
    ensures i == j
  {
    if i < j {
      CountOrder(clen, i, j);
    } else if j < i {
      CountOrder(clen, j, i);
    }
  }

  function MaxLen(clen: seq<nat>): (m: nat)
    ensures forall i :: 0 <= i < |clen| ==> clen[i] <= m
    ensures m > 0 ==> m in clen
  {
    if clen == [] then 0
    else
      var m := MaxLen(clen[..|clen| - 1]);
      if m < clen[|clen| - 1] then clen[|clen| - 1] else m
  }

  /** The symbol whose code the bits begin with, after `bits` bits have been read as `code`. */
  function DecodeFrom(clen: seq<nat>, code: nat, bits: nat, s: seq<bool>): (r: Read<nat>)
    ensures r.Got? ==> |r.rest| < |s| && r.value < |clen|
    decreases |s|, 0
  {
    if bits >= MaxLen(clen) then Corrupt
    else if s == [] then OutOfBits
    else Arrive(clen, 2 * code + if s[0] then 1 else 0, bits + 1, s[1..])
  }

  function Arrive(clen: seq<nat>, code: nat, bits: nat, s: seq<bool>): (r: Read<nat>)
    requires bits > 0
    ensures r.Got? ==> |r.rest| <= |s| && r.value < |clen|
    decreases |s|, 1
  {
    if code >= First(clen, bits) + Codes(clen, bits) then DecodeFrom(clen, code, bits, s)
    else if code >= First(clen, bits) then Got(SymbolWith(clen, bits, code - First(clen, bits)), s)
    else Corrupt
  }

  /** A code that is not the first of its length begins after all shorter codes. */
  lemma {:induction false} PrefixAbove(clen: seq<nat>, c: nat, n: nat, l: nat)
    requires l < n && First(clen, n) <= c
    ensures Shr(c, n - l) >= First(clen, l) + Codes(clen, l)
    decreases n - l
  {
    if l + 1 < n {
      PrefixAbove(clen, c, n, l + 1);
      assert Shr(c, n - l) == Shr(c, n - (l + 1)) / 2;
    } else {
      assert Shr(c, 1) == Shr(c, 0) / 2;
    }
  }

  /** The bits of a value after the first `j`. */
  lemma {:induction false} ValueBitAt(v: nat, n: nat, j: nat)
    requires j < n
    ensures ValueBits(v, n)[j] == (Shr(v, n - 1 - j) % 2 == 1)
    decreases n
  {
    if j < n - 1 {
      ValueBitAt(v / 2, n - 1, j);
      ShrHalf(v, n - 2 - j);
    }
  }

  lemma {:induction false} ShrHalf(v: nat, k: nat)
    ensures Shr(v / 2, k) == Shr(v, k + 1)
    decreases k
  {
    if k > 0 { ShrHalf(v, k - 1); }
  }

  lemma NextCodeBit(v: nat, n: nat, j: nat)
    requires j < n
    ensures ValueBits(v, n)[j..] == [ValueBits(v, n)[j]] + ValueBits(v, n)[j + 1..]
    ensures 2 * Shr(v, n - j) + (if ValueBits(v, n)[j] then 1 else 0) == Shr(v, n - (j + 1))
  {
    ValueBitAt(v, n, j);
  }

  lemma DecodeStep(clen: seq<nat>, code: nat, bits: nat, bit: bool, tail: seq<bool>)
    requires bits < MaxLen(clen)
    ensures DecodeFrom(clen, code, bits, [bit] + tail) == Arrive(clen, 2 * code + if bit then 1 else 0, bits + 1, tail)
  {
    assert ([bit] + tail)[1..] == tail;
  }

  /** From any point inside an `n`-bit code `c` that follows all shorter codes, reading on arrives
      at its end. */
  lemma {:induction false} ReadsOn(clen: seq<nat>, c: nat, n: nat, j: nat, rest: seq<bool>)
    requires j < n <= MaxLen(clen) && First(clen, n) <= c
    ensures DecodeFrom(clen, Shr(c, n - j), j, ValueBits(c, n)[j..] + rest) == Arrive(clen, c, n, rest)
    decreases n - j
  {
    hide DecodeFrom, ValueBits;
    NextCodeBit(c, n, j);
    var bits := ValueBits(c, n);
    var tail := bits[j + 1..] + rest;
    assert bits[j..] + rest == [bits[j]] + tail;
    DecodeStep(clen, Shr(c, n - j), j, bits[j], tail);
    if j + 1 < n {
      PrefixAbove(clen, c, n, j + 1);
      ReadsOn(clen, c, n, j + 1, rest);
    } else {
      assert tail == rest && Shr(c, 0) == c;
    }
  }

  /** The code of every symbol is read as that symbol. */
  lemma SymbolRoundTrip(clen: seq<nat>, i: nat, rest: seq<bool>, d: nat)
    requires Room(clen, d) && i < |clen| && 0 < clen[i] <= d
    ensures DecodeFrom(clen, 0, 0, CodeBits(clen, i) + rest) == Got(i, rest)
  {
    hide DecodeFrom;
    var n, c := clen[i], CodeOf(clen, i);
    CodeFits(clen, i, d);
    CodeVanishes(clen, i, d);
    ReadsOn(clen, c, n, 0, rest);
    assert CodeBits(clen, i)[0..] == CodeBits(clen, i);
    SymbolUnique(clen, i, SymbolWith(clen, n, c - First(clen, n)));
  }

  lemma CodeVanishes(clen: seq<nat>, i: nat, d: nat)
    requires Room(clen, d) && i < |clen| && 0 < clen[i] <= d
    ensures Shr(CodeOf(clen, i), clen[i]) == 0
  {
    CodeFits(clen, i, d);
    ShrDivides(CodeOf(clen, i), clen[i]);
    TopBits(CodeOf(clen, i), clen[i]);
  }

  // ----- the decoder's tables

  datatype Tables = Tables(inorder: seq<nat>, base: seq<nat>, limit: seq<nat>, minlen: nat, maxlen: nat)

  /** Number of codes shorter than `l`. */
  function Offset(clen: seq<nat>, l: nat): nat {
    if l == 0 then 0 else Offset(clen, l - 1) + Codes(clen, l - 1)
  }

  lemma {:induction false} OffsetBelowFirst(clen: seq<nat>, l: nat)
    ensures Offset(clen, l) <= First(clen, l)
    decreases l
  {
    if l > 0 { OffsetBelowFirst(clen, l - 1); }
  }

  /** The tables put the symbols in the order of their codes, and know for every length where its
      codes begin and end. */
  ghost predicate Tabulates(t: Tables, clen: seq<nat>) {
    && |t.limit| > t.maxlen && |t.base| > t.maxlen && t.maxlen == MaxLen(clen)
    && (forall i :: 0 <= i < |clen| && clen[i] > 0 ==> 0 < t.minlen <= clen[i])
    && (forall l :: t.minlen <= l <= t.maxlen ==> RowRight(t.base, t.limit, clen, l))
    && (forall i :: 0 <= i < |clen| && clen[i] > 0 ==> Placed(t.inorder, clen, i))
  }

  ghost predicate RowRight(base: seq<nat>, limit: seq<nat>, clen: seq<nat>, l: nat) {
    && l < |base| && l < |limit|
    && limit[l] + 1 == First(clen, l) + Codes(clen, l) && base[l] + Offset(clen, l) == First(clen, l)
  }

  /** Where a symbol stands in the order of the codes. */
  function Place(clen: seq<nat>, i: nat): nat
    requires i < |clen|
  {
    Offset(clen, clen[i]) + Count(clen[..i], clen[i])
  }

  ghost predicate Placed(inorder: seq<nat>, clen: seq<nat>, i: nat) {
    i < |clen| && Place(clen, i) < |inorder| && inorder[Place(clen, i)] == i
  }

  /** djw_decode_symbol: with the tables of some code lengths it reads what they say. */
  method DecodeSymbol(reader: BitReader, t: Tables, ghost clen: seq<nat>) returns (ok: bool, sym: nat)
    requires reader.Valid() && Tabulates(t, clen)
    modifies reader
    ensures reader.Valid() && ok == DecodeFrom(clen, 0, 0, old(reader.Rest())).Got?
    ensures ok ==> Got(sym, reader.Rest()) == DecodeFrom(clen, 0, 0, old(reader.Rest()))
  {
    hide Tabulates, DecodeFrom, Beyond, BitReader.Valid, BitReader.Rest;
    var code: nat, bits: nat := 0, 0;
    ghost var all := DecodeFrom(clen, 0, 0, reader.Rest());
    AtStart(t, clen);
    while bits != t.maxlen
      invariant reader.Valid() && Beyond(clen, code, bits) && bits <= t.maxlen
      invariant all == DecodeFrom(clen, code, bits, reader.Rest())
      decreases t.maxlen - bits
    {
      StepTold(t, clen, code, bits, reader.Rest());
      var bit;
      ok, bit := reader.DecodeBit();
      if !ok {
        return false, 0;
      }
      bits := bits + 1;
      code := 2 * code + if bit then 1 else 0;
      if bits >= t.minlen && code <= t.limit[bits] {
        return true, t.inorder[code - t.base[bits]];
      }
    }
    StepTold(t, clen, code, bits, reader.Rest());
    return false, 0;
  }

  ghost predicate Beyond(clen: seq<nat>, code: nat, bits: nat) {
    code >= First(clen, bits) + Codes(clen, bits)
  }

  lemma BeyondMeans(clen: seq<nat>, code: nat, bits: nat)
    ensures Beyond(clen, code, bits) <==> code >= First(clen, bits) + Codes(clen, bits)
  {
  }

  lemma AtStart(t: Tables, clen: seq<nat>)
    requires Tabulates(t, clen)
    ensures Beyond(clen, 0, 0)
  {
  }

  /** One round of the loop, as the tables tell it. */
  lemma StepTold(t: Tables, clen: seq<nat>, code: nat, bits: nat, s: seq<bool>)
    requires Tabulates(t, clen) && bits <= t.maxlen && Beyond(clen, code, bits)
    ensures bits == t.maxlen || s == [] ==> !DecodeFrom(clen, code, bits, s).Got?
    ensures bits < t.maxlen && s != [] ==>
              var l, next := bits + 1, 2 * code + if s[0] then 1 else 0;
              && l < |t.limit| && l < |t.base|
              && (if l >= t.minlen && next <= t.limit[l] then
                    && t.base[l] <= next && next - t.base[l] < |t.inorder|
                    && DecodeFrom(clen, code, bits, s) == Got(t.inorder[next - t.base[l]], s[1..])
                  else
                    && Beyond(clen, next, l)
                    && DecodeFrom(clen, code, bits, s) == DecodeFrom(clen, next, l, s[1..]))
  {
    hide *;
    MaxLenTold(t, clen);
    NoStep(clen, code, bits, s);
    if bits < t.maxlen && s != [] {
      BeyondMeans(clen, code, bits);
      TablesTell(t, clen, code, s[0], bits);
      var next := 2 * code + if s[0] then 1 else 0;
      DecodeStep(clen, code, bits, s[0], s[1..]);
      Arrives(clen, next, bits + 1, s[1..]);
      assert [s[0]] + s[1..] == s;
    }
  }

  lemma MaxLenTold(t: Tables, clen: seq<nat>)
    requires Tabulates(t, clen)
    ensures t.maxlen == MaxLen(clen)
  {
  }

  lemma NoStep(clen: seq<nat>, code: nat, bits: nat, s: seq<bool>)
    ensures bits >= MaxLen(clen) || s == [] ==> !DecodeFrom(clen, code, bits, s).Got?
  {
    hide MaxLen, Arrive;
  }

  lemma Arrives(clen: seq<nat>, code: nat, bits: nat, s: seq<bool>)
    requires bits > 0 && code >= First(clen, bits)
    ensures Beyond(clen, code, bits) ==> Arrive(clen, code, bits, s) == DecodeFrom(clen, code, bits, s)
    ensures Beyond(clen, code, bits) == (code >= First(clen, bits) + Codes(clen, bits))
    ensures code < First(clen, bits) + Codes(clen, bits) ==>
              code - First(clen, bits) < Count(clen, bits)
              && Arrive(clen, code, bits, s) == Got(SymbolWith(clen, bits, code - First(clen, bits)), s)
  {
    hide First, SymbolWith, DecodeFrom, Count;
  }

  /** What the tables say once a further bit has been read. */
  lemma TablesTell(t: Tables, clen: seq<nat>, before: nat, bit: bool, bits: nat)
    requires Tabulates(t, clen) && bits < t.maxlen && before >= First(clen, bits) + Codes(clen, bits)
    ensures var l, code := bits + 1, 2 * before + if bit then 1 else 0;
            && l < |t.limit| && l < |t.base| && code >= First(clen, l)
            && (code < First(clen, l) + Codes(clen, l) <==> l >= t.minlen && code <= t.limit[l])
            && (code < First(clen, l) + Codes(clen, l) ==>
                  && t.base[l] <= code && code - t.base[l] < |t.inorder|
                  && t.inorder[code - t.base[l]] == SymbolWith(clen, l, code - First(clen, l)))
  {
    hide *;
    var l, code := bits + 1, 2 * before + if bit then 1 else 0;
    RowFollows(clen, bits);
    RowTold(t, clen, l);
    if code < First(clen, l) + Codes(clen, l) {
      SymbolTold(t, clen, l, code - First(clen, l));
    }
  }

  lemma RowTold(t: Tables, clen: seq<nat>, l: nat)
    requires Tabulates(t, clen) && 0 < l <= t.maxlen
    ensures l < |t.limit| && l < |t.base|
    ensures if l < t.minlen then First(clen, l) == Codes(clen, l) == 0
            else t.limit[l] + 1 == First(clen, l) + Codes(clen, l) && t.base[l] + Offset(clen, l) == First(clen, l)
  {
    hide First, Codes, Offset, Placed;
    if l < t.minlen {
      FirstIsZero(clen, l);
      NoneBelow(clen, l);
      RowFollows(clen, l);
    } else {
      assert RowRight(t.base, t.limit, clen, l);
    }
  }

  /** The symbol with the `k`-th code of length `l` stands where the tables look for it. */
  lemma SymbolTold(t: Tables, clen: seq<nat>, l: nat, k: nat)
    requires Tabulates(t, clen) && l > 0 && k < Codes(clen, l)
    ensures k < Count(clen, l) && Offset(clen, l) + k < |t.inorder|
            && t.inorder[Offset(clen, l) + k] == SymbolWith(clen, l, k)
  {
    hide First, Offset, RowRight, Count;
    var i := SymbolWith(clen, l, k);
    assert Placed(t.inorder, clen, i);
  }

  // ----- djw_build_decoder

  lemma {:induction false} OffsetGrows(clen: seq<nat>, l: nat, m: nat)
    requires l <= m
    ensures Offset(clen, l) <= Offset(clen, m)
    decreases m
  {
    if l < m { OffsetGrows(clen, l, m - 1); }
  }

  lemma {:induction false} OffsetLast(clen: seq<nat>, l: nat)
    requires clen != []
    ensures var n := |clen| - 1;
            Offset(clen, l) == Offset(clen[..n], l) + if 0 < clen[n] < l then 1 else 0
    decreases l
  {
    if l > 0 { OffsetLast(clen, l - 1); }
  }

  lemma {:induction false} OffsetOfNone(l: nat)
    ensures Offset([], l) == 0
    decreases l
  {
    if l > 0 { OffsetOfNone(l - 1); }
  }

  lemma {:induction false} OffsetWithin(clen: seq<nat>, l: nat)
    ensures Offset(clen, l) <= |clen|
    decreases |clen|
  {
    if clen == [] {
      OffsetOfNone(l);
    } else {
      OffsetWithin(clen[..|clen| - 1], l);
      OffsetLast(clen, l);
    }
  }

  lemma PlaceWithin(clen: seq<nat>, i: nat)
    requires i < |clen| && clen[i] > 0
    ensures Place(clen, i) < Offset(clen, clen[i] + 1) <= |clen|
  {
    CountPrefix(clen, i, clen[i]);
    OffsetWithin(clen, clen[i] + 1);
  }

  lemma PlacesDiffer(clen: seq<nat>, i: nat, j: nat)
    requires i < j < |clen| && clen[i] > 0 && clen[j] > 0
    ensures Place(clen, i) != Place(clen, j)
  {
    PlaceWithin(clen, i);
    PlaceWithin(clen, j);
    if clen[i] == clen[j] {
      CountOrder(clen, i, j);
    } else if clen[i] < clen[j] {
      OffsetGrows(clen, clen[i] + 1, clen[j]);
    } else {
      OffsetGrows(clen, clen[j] + 1, clen[i]);
    }
  }

  /** How many codes there are of each length. */
  method CountLengths(clen: seq<nat>, absMax: nat) returns (nr: array<nat>)
    requires forall i :: 0 <= i < |clen| ==> clen[i] <= absMax
    ensures nr.Length == absMax + 2 && fresh(nr)
    ensures forall l :: 0 <= l < nr.Length ==> nr[l] == Count(clen, l)
  {
    nr := new nat[absMax + 2](_ => 0);
    assert clen[..0] == [];
    for i := 0 to |clen|
      invariant forall l :: 0 <= l < nr.Length ==> nr[l] == Count(clen[..i], l)
    {
      forall l | 0 <= l < nr.Length
        ensures Count(clen[..i + 1], l) == Count(clen[..i], l) + if clen[i] == l then 1 else 0
      {
        CountStep(clen, i, l);
      }
      nr[clen[i]] := nr[clen[i]] + 1;
    }
    assert clen[..|clen|] == clen;
  }

  lemma CountPositive(clen: seq<nat>, i: nat)
    requires i < |clen|
    ensures Count(clen, clen[i]) > 0
  {
    CountPrefix(clen, i, clen[i]);
  }

  /** The least and the greatest length that occur. */
  method Span(clen: seq<nat>, nr: array<nat>, absMax: nat) returns (lo: nat, hi: nat)
    requires nr.Length == absMax + 2 && forall l :: 0 <= l < nr.Length ==> nr[l] == Count(clen, l)
    requires forall i :: 0 <= i < |clen| ==> clen[i] <= absMax
    ensures 0 < lo <= absMax + 1 && hi == MaxLen(clen) <= absMax
    ensures forall i :: 0 <= i < |clen| && clen[i] > 0 ==> lo <= clen[i]
    ensures lo <= hi ==> nr[lo] > 0
  {
    forall i | 0 <= i < |clen| ensures nr[clen[i]] > 0 { CountPositive(clen, i); }
    lo := 1;
    while lo <= absMax && nr[lo] == 0
      invariant 0 < lo <= absMax + 1 && forall l :: 0 < l < lo ==> nr[l] == 0
    {
      lo := lo + 1;
    }
    hi := absMax;
    while hi != 0 && nr[hi] == 0
      invariant hi <= absMax && forall l :: hi < l <= absMax ==> nr[l] == 0
    {
      hi := hi - 1;
    }
    if hi > 0 && hi !in clen {
      NoneBelow(clen, hi);
    }
  }

  lemma RowFollows(clen: seq<nat>, l: nat)
    ensures First(clen, l + 1) == 2 * (First(clen, l) + Codes(clen, l))
            && Offset(clen, l + 1) == Offset(clen, l) + Codes(clen, l)
    ensures Offset(clen, l) <= First(clen, l) && (l > 0 ==> Codes(clen, l) == Count(clen, l))
  {
    OffsetBelowFirst(clen, l);
  }

  /** The tables of where the codes of each length begin and end. */
  method FillRows(clen: seq<nat>, nr: array<nat>, lo: nat, hi: nat)
    returns (tmpBase: array<nat>, base: array<nat>, limit: array<nat>)
    requires nr.Length > lo > 0 && nr.Length > hi && forall l :: 0 <= l < nr.Length ==> nr[l] == Count(clen, l)
    requires forall i :: 0 <= i < |clen| && clen[i] > 0 ==> lo <= clen[i]
    requires lo <= hi ==> nr[lo] > 0
    ensures tmpBase.Length == base.Length == limit.Length == nr.Length && fresh(tmpBase) && tmpBase != base
            && tmpBase != limit
    ensures forall l :: lo <= l <= hi ==> RowRight(base[..], limit[..], clen, l) && tmpBase[l] == Offset(clen, l)
  {
    hide First, Codes, Offset, Count;
    tmpBase, base, limit := new nat[nr.Length], new nat[nr.Length], new nat[nr.Length];
    tmpBase[lo], base[lo] := 0, 0;
    // an unused table: the subtraction wraps around
    limit[lo] := if nr[lo] > 0 then nr[lo] - 1 else TWO64 - 1;
    FirstIsZero(clen, lo);
    RowFollows(clen, lo);
    var i := lo + 1;
    while i <= hi
      invariant lo < i && (lo <= hi ==> i <= hi + 1)
      invariant forall l :: lo <= l < i && l <= hi ==>
                RowRight(base[..], limit[..], clen, l) && tmpBase[l] == Offset(clen, l)
      decreases hi + 1 - i
    {
      hide RowRight;
      NextRow(clen, nr, i, tmpBase, base, limit);
      i := i + 1;
    }
  }

  method NextRow(clen: seq<nat>, nr: array<nat>, i: nat, tmpBase: array<nat>, base: array<nat>, limit: array<nat>)
    requires 0 < i - 1 && i < nr.Length == tmpBase.Length == base.Length == limit.Length
    requires tmpBase != base && tmpBase != limit && base != limit && nr != tmpBase && nr != base && nr != limit
    requires forall l :: 0 <= l < nr.Length ==> nr[l] == Count(clen, l)
    requires RowRight(base[..], limit[..], clen, i - 1) && tmpBase[i - 1] == Offset(clen, i - 1)
    modifies tmpBase, base, limit
    ensures RowRight(base[..], limit[..], clen, i) && tmpBase[i] == Offset(clen, i)
    ensures forall l :: 0 <= l < i && old(RowRight(base[..], limit[..], clen, l)) ==>
            RowRight(base[..], limit[..], clen, l)
    ensures forall l :: 0 <= l < i ==> tmpBase[l] == old(tmpBase[l])
  {
    hide First, Codes, Offset, Count;
    RowFollows(clen, i - 1);
    RowFollows(clen, i);
    var lastLimit := (limit[i - 1] + 1) * 2;
    tmpBase[i] := tmpBase[i - 1] + nr[i - 1];
    limit[i] := lastLimit + nr[i] - 1;
    base[i] := lastLimit - tmpBase[i];
  }

  /** Where the next symbol of each length goes, after the first `n` symbols. */
  ghost predicate Pointing(tmpBase: seq<nat>, clen: seq<nat>, n: nat)
    requires n <= |clen|
  {
    forall k :: 0 <= k < |clen| && clen[k] > 0 ==>
      clen[k] < |tmpBase| && tmpBase[clen[k]] == Offset(clen, clen[k]) + Count(clen[..n], clen[k])
  }

  ghost predicate PlacedUpTo(inorder: seq<nat>, clen: seq<nat>, n: nat) {
    |inorder| == |clen| && forall k :: 0 <= k < n && k < |clen| && clen[k] > 0 ==> Placed(inorder, clen, k)
  }

  lemma SymbolPlaced(inorder: seq<nat>, clen: seq<nat>, i: nat)
    requires i < |clen| && clen[i] > 0 && PlacedUpTo(inorder, clen, i)
    ensures Place(clen, i) < |inorder| && PlacedUpTo(inorder[Place(clen, i) := i], clen, i + 1)
  {
    hide Place;
    PlaceWithin(clen, i);
    var after: seq<nat> := inorder[Place(clen, i) := i];
    forall k | 0 <= k < i + 1 && clen[k] > 0 ensures Placed(after, clen, k) {
      if k < i {
        PlacesDiffer(clen, k, i);
        assert Placed(inorder, clen, k);
      }
    }
  }

  lemma PointerMoves(tmpBase: seq<nat>, clen: seq<nat>, i: nat)
    requires i < |clen| && Pointing(tmpBase, clen, i)
    ensures clen[i] > 0 ==> clen[i] < |tmpBase| && tmpBase[clen[i]] == Place(clen, i)
    ensures Pointing(if clen[i] > 0 then tmpBase[clen[i] := tmpBase[clen[i]] + 1] else tmpBase, clen, i + 1)
  {
    forall k | 0 <= k < |clen|
      ensures Count(clen[..i + 1], clen[k]) == Count(clen[..i], clen[k]) + if clen[i] == clen[k] then 1 else 0
    {
      CountStep(clen, i, clen[k]);
    }
  }

  /** The symbols in the order of their codes. */
  method FillInorder(clen: seq<nat>, tmpBase: array<nat>) returns (inorder: array<nat>)
    requires Pointing(tmpBase[..], clen, 0)
    modifies tmpBase
    ensures PlacedUpTo(inorder[..], clen, |clen|)
  {
    inorder := new nat[|clen|];
    for i := 0 to |clen|
      invariant Pointing(tmpBase[..], clen, i) && PlacedUpTo(inorder[..], clen, i)
      invariant fresh(inorder)
    {
      hide Pointing, PlacedUpTo, Place;
      var l := clen[i];
      PointerMoves(tmpBase[..], clen, i);
      if l != 0 {
        SymbolPlaced(inorder[..], clen, i);
        ghost var before, bases := inorder[..], tmpBase[..];
        inorder[tmpBase[l]] := i;
        assert inorder[..] == before[Place(clen, i) := i];
        tmpBase[l] := tmpBase[l] + 1;
        assert tmpBase[..] == bases[l := bases[l] + 1];
      } else {
        SymbolSkipped(inorder[..], clen, i);
      }
    }
  }

  lemma SymbolSkipped(inorder: seq<nat>, clen: seq<nat>, i: nat)
    requires i < |clen| && clen[i] == 0 && PlacedUpTo(inorder, clen, i)
    ensures PlacedUpTo(inorder, clen, i + 1)
  {
  }

  /** djw_build_decoder. */
  method BuildDecoder(clen: seq<nat>, absMax: nat) returns (t: Tables)
    requires forall i :: 0 <= i < |clen| ==> clen[i] <= absMax
    ensures Tabulates(t, clen)
  {
    var nr := CountLengths(clen, absMax);
    var lo, hi := Span(clen, nr, absMax);
    var tmpBase, base, limit := FillRows(clen, nr, lo, hi);
    assert clen[..0] == [];
    var inorder := FillInorder(clen, tmpBase);
    t := Tables(inorder[..], base[..], limit[..], lo, hi);
  }
}
