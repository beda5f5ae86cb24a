/**
 The bit stream under the secondary compressor: a value is written most significant bit first, the
 bits fill each byte from its least significant end.
 */
module BitPacking {
  import opened Arithmetic
  import opened Bytes
  import opened Huffman

  // ----- what bytes and values are as bits

  /** The `n` lowest bits of `b`, lowest first. */
  function LowBits(b: nat, n: nat): (r: seq<bool>)
    ensures |r| == n
    decreases n
  {
    if n == 0 then [] else [b % 2 == 1] + LowBits(b / 2, n - 1)
  }

  function Unpacked(s: seq<byte>): (r: seq<bool>)
    ensures |r| == 8 * |s|
  {
    if s == [] then [] else LowBits(s[0], 8) + Unpacked(s[1..])
  }

  /** The `n` lowest bits of `v`, highest first. */
  function ValueBits(v: nat, n: nat): (r: seq<bool>)
    ensures |r| == n
  {
    if n == 0 then [] else ValueBits(v / 2, n - 1) + [v % 2 == 1]
  }

  function BitsValue(s: seq<bool>): nat {
    if s == [] then 0 else 2 * BitsValue(s[..|s| - 1]) + if s[|s| - 1] then 1 else 0
  }

  lemma {:induction false} ValueOfBits(v: nat, n: nat)
    requires v < Pow2(n)
    ensures BitsValue(ValueBits(v, n)) == v
    decreases n
  {
    if n > 0 {
      ValueOfBits(v / 2, n - 1);
      assert ValueBits(v, n)[..n - 1] == ValueBits(v / 2, n - 1);
    }
  }

  function ZeroBits(n: nat): (r: seq<bool>)
    ensures |r| == n
  {
    seq(n, i => false)
  }

  lemma {:induction false} UnpackedAppend(s: seq<byte>, b: byte)
    ensures Unpacked(s + [b]) == Unpacked(s) + LowBits(b, 8)
    decreases |s|
  {
    hide *;
    UnpackedFirst(s);
    UnpackedFirst(s + [b]);
    if s == [] {
      assert ([] + [b])[1..] == [];
      UnpackedFirst([]);
      assert LowBits(b, 8) + [] == LowBits(b, 8) == [] + LowBits(b, 8);
    } else {
      UnpackedAppend(s[1..], b);
      assert (s + [b])[1..] == s[1..] + [b] && (s + [b])[0] == s[0];
      Grouped(LowBits(s[0], 8), Unpacked(s[1..]), LowBits(b, 8));
    }
  }

  lemma Grouped(a: seq<bool>, b: seq<bool>, c: seq<bool>)
    ensures a + b + c == a + (b + c)
  {
  }

  /** One more bit on top of the lowest `n`. */
  lemma {:induction false} LowBitsGrow(b: nat, n: nat, bit: bool)
    requires b < Pow2(n)
    ensures LowBits(b + if bit then Pow2(n) else 0, n + 1) == LowBits(b, n) + [bit]
    decreases n
  {
    if n > 0 {
      LowBitsGrow(b / 2, n - 1, bit);
      var top := if bit then Pow2(n - 1) else 0;
      assert (b + 2 * top) / 2 == b / 2 + top && (b + 2 * top) % 2 == b % 2;
    } else {
      assert LowBits(b / 2, 0) == [];
    }
  }

  lemma {:induction false} LowBitsPad(b: nat, n: nat, m: nat)
    requires b < Pow2(n) && n <= m
    ensures LowBits(b, m) == LowBits(b, n) + ZeroBits(m - n)
    decreases m
  {
    if n > 0 {
      LowBitsPad(b / 2, n - 1, m - 1);
    } else if m > 0 {
      LowBitsPad(0, 0, m - 1);
    }
  }

  // ----- writing

  /** bit_state, and what has been emitted; `bits` is log2 of `cur_mask`. */
  class BitWriter {
    var curByte: nat
    var curMask: nat
    var output: seq<byte>
    ghost var k: nat

    ghost predicate Valid()
      reads this
    {
      k < 8 && curMask == Pow2(k) && curByte < Pow2(k)
    }

    /** Everything written so far. */
    ghost function Bits(): seq<bool>
      reads this
    {
      Unpacked(output) + LowBits(curByte, k)
    }

    constructor ()
      ensures Valid() && Bits() == [] && output == []
    {
      curByte, curMask, output, k := 0, 1, [], 0;
    }

    /** xd3_encode_bit. */
    method EncodeBit(bit: bool)
      requires Valid()
      modifies this
      ensures Valid() && Bits() == old(Bits()) + [bit]
    {
      hide Unpacked, LowBits;
      LowBitsGrow(curByte, k, bit);
      PowIs128(k);
      if bit {
        curByte := curByte + curMask;
      }
      if curMask == 0x80 {
        UnpackedAppend(output, curByte);
        output := output + [curByte];
        NoBits();
        curMask, curByte, k := 1, 0, 0;
      } else {
        curMask := curMask * 2;
        k := k + 1;
      }
    }

    /** xd3_encode_bits. */
    method EncodeBits(nbits: nat, value: nat)
      requires Valid() && nbits > 0 && value < Pow2(nbits)
      modifies this
      ensures Valid() && Bits() == old(Bits()) + ValueBits(value, nbits)
    {
      hide *;
      var mask := Shift(nbits);
      ghost var i: nat := nbits;
      ghost var was := Bits();
      WrittenStarts(was, value, nbits);
      while mask != 1
        invariant Valid() && WrittenSoFar(Bits(), was, value, mask, i, nbits)
        decreases i
      {
        WrittenMore(Bits(), was, value, mask, i, nbits);
        mask, i := mask / 2, i - 1;
        EncodeBit(value / mask % 2 == 1);
      }
      WrittenEnds(Bits(), was, value, i, nbits);
    }

    /** xd3_flush_bits: the last byte is filled with zeros. */
    method Flush()
      requires Valid()
      modifies this`output
      ensures exists n: nat :: n < 8 && Unpacked(output) == old(Bits()) + ZeroBits(n)
    {
      if curMask != 1 {
        PowIs128(k);
        LowBitsPad(curByte, k, 8);
        UnpackedAppend(output, curByte);
        output := output + [curByte];
        assert Unpacked(output) == old(Bits()) + ZeroBits(8 - k);
      } else {
        NoBits();
        assert Unpacked(output) == old(Bits()) + ZeroBits(0);
      }
    }
  }

  /** All but the lowest `i` of `n` bits have been written. */
  ghost predicate WrittenSoFar(bits: seq<bool>, was: seq<bool>, value: nat, mask: nat, i: nat, n: nat) {
    i <= n && mask == Pow2(i) && bits == was + ValueBits(Shr(value, i), n - i)
  }

  lemma WrittenStarts(was: seq<bool>, value: nat, n: nat)
    requires value < Pow2(n)
    ensures WrittenSoFar(was, was, value, Pow2(n), n, n)
  {
    ShrDivides(value, n);
    TopBits(value, n);
    assert was + ValueBits(0, 0) == was;
  }

  lemma WrittenMore(bits: seq<bool>, was: seq<bool>, value: nat, mask: nat, i: nat, n: nat)
    requires WrittenSoFar(bits, was, value, mask, i, n) && mask != 1
    ensures i > 0 && mask / 2 > 0
    ensures WrittenSoFar(bits + [value / (mask / 2) % 2 == 1], was, value, mask / 2, i - 1, n)
  {
    MaskFacts(i);
    ShrDivides(value, i - 1);
    NextValueBit(value, i, n - i);
    hide *;
    Grouped(was, ValueBits(Shr(value, i), n - i), [Shr(value, i - 1) % 2 == 1]);
    WrittenNow(bits + [Shr(value, i - 1) % 2 == 1], was, value, mask / 2, i - 1, n);
  }

  lemma WrittenNow(bits: seq<bool>, was: seq<bool>, value: nat, mask: nat, i: nat, n: nat)
    requires i <= n && mask == Pow2(i) && bits == was + ValueBits(Shr(value, i), n - i)
    ensures WrittenSoFar(bits, was, value, mask, i, n)
  {
  }

  lemma WrittenEnds(bits: seq<bool>, was: seq<bool>, value: nat, i: nat, n: nat)
    requires WrittenSoFar(bits, was, value, 1, i, n)
    ensures bits == was + ValueBits(value, n)
  {
    MaskFacts(i);
  }

  method Shift(n: nat) returns (m: nat)
    ensures m == Pow2(n)
  {
    m := 1;
    for i := 0 to n
      invariant m == Pow2(i)
    {
      m := 2 * m;
    }
  }

  lemma TopBits(v: nat, n: nat)
    requires v < Pow2(n)
    ensures v / Pow2(n) == 0
  {
    DivModUnique(v, Pow2(n), 0, v);
  }

  lemma NextBit(v: nat, m: nat)
    requires m > 0
    ensures v / m / 2 == v / (2 * m)
  {
    var q, r := v / m, v % m;
    var p, b := q / 2, q % 2;
    Halves(m, q, p, b);
    DivModUnique(v, 2 * m, p, m * b + r);
  }

  lemma Halves(m: nat, q: nat, p: nat, b: nat)
    requires q == 2 * p + b && b <= 1
    ensures m * q == (2 * m) * p + m * b && 0 <= m * b <= m
  {
    assert m * q == m * (2 * p) + m * b == (2 * m) * p + m * b;
  }

  lemma NextValueBit(v: nat, i: nat, n: nat)
    requires i > 0
    ensures ValueBits(Shr(v, i - 1), n + 1) == ValueBits(Shr(v, i), n) + [Shr(v, i - 1) % 2 == 1]
  {
  }

  lemma NoBits()
    ensures Pow2(0) == 1 && LowBits(0, 0) == [] && ZeroBits(0) == []
  {
  }

  lemma {:induction false} PowBelow(a: nat, b: nat)
    requires a < b
    ensures 2 * Pow2(a) <= Pow2(b)
    decreases b
  {
    if a < b - 1 { PowBelow(a, b - 1); }
  }

  lemma PowIs128(k: nat)
    requires k < 8
    ensures (Pow2(k) == 0x80 <==> k == 7) && Pow2(k) <= 0x80
    ensures Pow2(k) == 1 <==> k == 0
    ensures Pow2(k + 1) == 2 * Pow2(k)
  {
    assert Pow2(3) == 8 && Pow2(5) == 32 && Pow2(7) == 0x80;
    if k < 7 { PowBelow(k, 7); }
    if k > 0 { PowBelow(0, k); }
  }

  // ----- reading

  datatype Read<T> = Got(value: T, rest: seq<bool>) | OutOfBits | Corrupt

  function TakeBits(s: seq<bool>, n: nat): (r: Read<nat>)
    ensures r.Got? ==> r.value < Pow2(n) && |r.rest| + n == |s|
  {
    if |s| < n then OutOfBits
    else
      BitsBounded(s[..n]);
      Got(BitsValue(s[..n]), s[n..])
  }

  lemma {:induction false} BitsBounded(s: seq<bool>)
    ensures BitsValue(s) < Pow2(|s|)
    decreases |s|
  {
    if s != [] { BitsBounded(s[..|s| - 1]); }
  }

  /** What was written is read. */
  lemma TakeWritten(v: nat, n: nat, rest: seq<bool>)
    requires v < Pow2(n)
    ensures TakeBits(ValueBits(v, n) + rest, n) == Got(v, rest)
  {
    ValueOfBits(v, n);
    assert (ValueBits(v, n) + rest)[..n] == ValueBits(v, n) && (ValueBits(v, n) + rest)[n..] == rest;
  }

  lemma MaskFacts(i: nat)
    ensures forall s :: Above(s, 0) == BitsValue(s)
    ensures Pow2(0) == 1 && (Pow2(i) == 1 <==> i == 0)
    ensures i > 0 ==> Pow2(i) / 2 == Pow2(i - 1) && (Pow2(i - 1) == 1 <==> i == 1)
  {
    if i > 0 { PowBelow(0, i); }
    if i > 1 { PowBelow(0, i - 1); }
  }

  /** The value of bits that stand `i` places up. */
  function Above(s: seq<bool>, i: nat): nat {
    BitsValue(s) * Pow2(i)
  }

  lemma MoreValue(s: seq<bool>, n: nat, i: nat)
    requires n < |s| && i > 0
    ensures Above(s[..n + 1], i - 1) == Above(s[..n], i) + if s[n] then Pow2(i - 1) else 0
  {
    assert s[..n + 1][..n] == s[..n];
    var b, p := BitsValue(s[..n]), Pow2(i - 1);
    assert (2 * b) * p == b * (2 * p);
    assert (2 * b + 1) * p == (2 * b) * p + p;
  }

  function Shr(b: nat, k: nat): nat {
    if k == 0 then b else Shr(b, k - 1) / 2
  }

  lemma {:induction false} ShrDivides(b: nat, k: nat)
    ensures Shr(b, k) == b / Pow2(k)
    decreases k
  {
    if k > 0 {
      ShrDivides(b, k - 1);
      NextBit(b, Pow2(k - 1));
    }
  }

  /** bit_state, and the input that is left; `cur_mask` is 256 when the current byte is used up. */
  class BitReader {
    var curByte: nat
    var curMask: nat
    var input: seq<byte>
    ghost var k: nat

    ghost predicate Valid()
      reads this
    {
      k <= 8 && curMask == Pow2(k)
    }

    /** Everything still to be read. */
    ghost function Rest(): seq<bool>
      requires Valid()
      reads this
    {
      LowBits(Shr(curByte, k), 8 - k) + Unpacked(input)
    }

    constructor (input: seq<byte>)
      ensures Valid() && Rest() == Unpacked(input) && this.input == input
    {
      curByte, curMask, k, this.input := 0, 0x100, 8, input;
      new;
      assert Pow2(3) == 8 && Pow2(6) == 64 && Pow2(8) == 0x100;
      assert LowBits(0, 0) + Unpacked(input) == Unpacked(input);
    }

    /** Fewer than eight bits are left only when the input is used up. */
    lemma AlmostDone()
      requires Valid()
      ensures |Rest()| < 8 ==> input == []
    {
    }

    /** One bit, with the fetching of the next byte that xd3_decode_bits and djw_decode_symbol
        share. */
    method DecodeBit() returns (ok: bool, bit: bool)
      requires Valid()
      modifies this
      ensures Valid() && ok == (old(Rest()) != [])
      ensures ok ==> bit == old(Rest())[0] && Rest() == old(Rest())[1..]
      ensures !ok ==> Rest() == []
    {
      hide Unpacked, LowBits, Shr, Pow2;
      bit := false;
      MaskIs256(k);
      UnpackedFirst(input);
      if curMask == 0x100 {
        if input == [] {
          return false, false;
        }
        curByte, curMask, k, input := input[0], 1, 0, input[1..];
      }
      assert Rest() == old(Rest());
      ok, bit := true, curByte / curMask % 2 == 1;
      NextLowBit(curByte, k);
      curMask, k := curMask * 2, k + 1;
    }

    /** xd3_decode_bits. */
    method DecodeBits(nbits: nat) returns (ok: bool, value: nat)
      requires Valid() && nbits > 0
      modifies this
      ensures Valid() && ok == TakeBits(old(Rest()), nbits).Got?
      ensures ok ==> Got(value, Rest()) == TakeBits(old(Rest()), nbits)
    {
      hide *;
      ghost var all := Rest();
      ghost var i: nat := nbits;
      value := 0;
      var vmask := Shift(nbits);
      ReadStarts(all, nbits);
      while vmask != 1
        invariant Valid() && ReadSoFar(all, Rest(), value, vmask, i, nbits)
        decreases i
      {
        ReadMore(all, Rest(), value, vmask, i, nbits);
        vmask := vmask / 2;
        var bit;
        ok, bit := DecodeBit();
        if !ok {
          return;
        }
        if bit {
          value := value + vmask;
        }
        i := i - 1;
      }
      ReadEnds(all, Rest(), value, i, nbits);
      ok := true;
    }
  }

  /** All but `i` of `n` bits have been read; `mask` is that of the last of them. */
  ghost predicate ReadSoFar(all: seq<bool>, rest: seq<bool>, value: nat, mask: nat, i: nat, n: nat) {
    && i <= n && mask == Pow2(i) && n - i <= |all|
    && value == Above(all[..n - i], i) && rest == all[n - i..]
  }

  lemma ReadStarts(all: seq<bool>, n: nat)
    ensures ReadSoFar(all, all, 0, Pow2(n), n, n)
  {
    assert all[..0] == [] && all[0..] == all;
  }

  lemma ReadMore(all: seq<bool>, rest: seq<bool>, value: nat, mask: nat, i: nat, n: nat)
    requires ReadSoFar(all, rest, value, mask, i, n) && mask != 1
    ensures i > 0
    ensures rest == [] ==> TakeBits(all, n) == OutOfBits
    ensures rest != [] ==> ReadSoFar(all, rest[1..], value + if rest[0] then mask / 2 else 0, mask / 2, i - 1, n)
  {
    MaskFacts(i);
    if rest != [] {
      assert rest[0] == all[n - i] && rest[1..] == all[n - i + 1..];
      MoreValue(all, n - i, i);
      hide Above;
    }
  }

  lemma ReadEnds(all: seq<bool>, rest: seq<bool>, value: nat, i: nat, n: nat)
    requires ReadSoFar(all, rest, value, 1, i, n)
    ensures TakeBits(all, n) == Got(value, rest)
  {
    MaskFacts(i);
  }

  lemma UnpackedFirst(s: seq<byte>)
    ensures s == [] ==> Unpacked(s) == []
    ensures s != [] ==> Unpacked(s) == LowBits(s[0], 8) + Unpacked(s[1..])
  {
  }

  lemma MaskIs256(k: nat)
    requires k <= 8
    ensures Pow2(k) == 0x100 <==> k == 8
    ensures Pow2(0) == 1 && forall b :: Shr(b, 0) == b && LowBits(b, 0) == []
  {
    assert Pow2(3) == 8 && Pow2(5) == 32 && Pow2(7) == 0x80;
    if k < 8 { PowIs128(k); }
  }

  lemma NextLowBit(b: nat, k: nat)
    requires k < 8
    ensures LowBits(Shr(b, k), 8 - k) == [b / Pow2(k) % 2 == 1] + LowBits(Shr(b, k + 1), 7 - k)
    ensures Pow2(k + 1) == 2 * Pow2(k)
  {
    ShrDivides(b, k);
  }
}
