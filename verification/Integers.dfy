/**
 Variable-length integers (section 2 of RFC 3284): big-endian base 128, the high bit
 of every byte but the last is set.  `limit` is 2^32 or 2^64, for the two widths
 the library instantiates.
 */
module Integers {
  import opened Bytes

  predicate IsWidth(limit: nat) {
    limit == TWO32 || limit == TWO64
  }

  /** A byte string that is one complete integer: continuation bit on all bytes but the last. */
  ghost predicate Terminated(s: seq<byte>) {
    s != [] && s[|s| - 1] < 128 && forall i :: 0 <= i < |s| - 1 ==> s[i] >= 128
  }

  /** The number a digit string denotes. */
  function Value(s: seq<byte>): (v: nat) {
    if s == [] then 0 else 128 * Value(s[..|s| - 1]) + s[|s| - 1] % 128
  }

  /** The continuation bytes of `num`, most significant first; none for zero. */
  function HighDigits(num: nat): (s: seq<byte>) {
    if num == 0 then [] else HighDigits(num / 128) + [num % 128 + 128]
  }

  function Encoding(num: nat): (s: seq<byte>) {
    HighDigits(num / 128) + [num % 128]
  }

  lemma {:induction false} HighDigitsValue(num: nat)
    ensures Value(HighDigits(num)) == num
    ensures forall i :: 0 <= i < |HighDigits(num)| ==> HighDigits(num)[i] >= 128
  {
    if num > 0 {
      HighDigitsValue(num / 128);
      var s := HighDigits(num);
      assert s[..|s| - 1] == HighDigits(num / 128);
    }
  }

  /** The encoding is one complete integer, denotes the number, and has no leading zero digit. */
  lemma EncodingMeaning(num: nat)
    ensures Terminated(Encoding(num))
    ensures Value(Encoding(num)) == num
    ensures num >= 128 ==> Encoding(num)[0] != 128
  {
    hide HighDigits;
    HighDigitsValue(num / 128);
    if num >= 128 {
      HighDigitsLead(num / 128);
    }
    DivMod128(num);
    var s := Encoding(num);
    assert s[..|s| - 1] == HighDigits(num / 128);
  }

  lemma DivMod128(num: nat)
    ensures 128 * (num / 128) + num % 128 == num
    ensures num >= 128 ==> num / 128 > 0
  {
  }

  lemma {:induction false} HighDigitsLead(num: nat)
    requires num > 0
    ensures |HighDigits(num)| > 0 && HighDigits(num)[0] > 128
  {
    if num >= 128 {
      HighDigitsLead(num / 128);
    }
  }

  // ----- emitting

  function Pow128(n: nat): (p: nat)
    ensures p > 0
  {
    if n == 0 then 1 else 128 * Pow128(n - 1)
  }

  lemma {:induction false} HighDigitsLength(num: nat, n: nat)
    ensures |HighDigits(num)| <= n <==> num < Pow128(n)
  {
    if num > 0 && n > 0 {
      HighDigitsLength(num / 128, n - 1);
    }
  }

  /** EMIT_INTEGER_TYPE: digits are produced from the least significant end of a 10-byte buffer. */
  method EmitInteger(num: nat) returns (s: seq<byte>)
    requires num < TWO64
    ensures s == Encoding(num)
  {
    var buf := new byte[10];
    var bufi := 10;
    var rest := num;
    HighDigitsLength(num / 128, 9);
    assert Pow128(9) == 0x8000_0000_0000_0000;
    bufi := bufi - 1;
    buf[bufi] := rest % 128 + 128;
    rest := rest / 128;
    while rest != 0
      invariant 0 <= bufi <= 9
      invariant |HighDigits(rest)| <= bufi
      invariant HighDigits(rest) + buf[bufi..9] == HighDigits(num / 128)
      invariant buf[9] == num % 128 + 128
    {
      bufi := bufi - 1;
      ghost var tail := buf[bufi + 1..9];
      buf[bufi] := rest % 128 + 128;
      assert buf[bufi..9] == [rest % 128 + 128] + tail;
      rest := rest / 128;
    }
    assert [] + buf[bufi..9] == buf[bufi..9];
    ghost var high := buf[bufi..9];
    buf[9] := buf[9] % 128;
    s := buf[bufi..];
    assert s == high + [num % 128];
  }

  /** xd3_sizeof_uint32_t and xd3_sizeof_uint64_t: the number of bytes an integer takes. */
  function SizeOf(num: nat, limit: nat): (n: nat)
    requires IsWidth(limit) && num < limit
  {
    if num < 0x80 then 1
    else if num < 0x4000 then 2
    else if num < 0x20_0000 then 3
    else if num < 0x1000_0000 then 4
    else if limit == TWO32 || num < 0x8_0000_0000 then 5
    else if num < 0x400_0000_0000 then 6
    else if num < 0x2_0000_0000_0000 then 7
    else if num < 0x100_0000_0000_0000 then 8
    else if num < 0x8000_0000_0000_0000 then 9
    else 10
  }

  lemma Pow128Values()
    ensures Pow128(1) == 0x80 && Pow128(2) == 0x4000 && Pow128(3) == 0x20_0000
    ensures Pow128(4) == 0x1000_0000 && Pow128(5) == 0x8_0000_0000
    ensures Pow128(6) == 0x400_0000_0000 && Pow128(7) == 0x2_0000_0000_0000
    ensures Pow128(8) == 0x100_0000_0000_0000 && Pow128(9) == 0x8000_0000_0000_0000
    ensures Pow128(0) == 1
  {
  }

  lemma SizeOfIsLength(num: nat, limit: nat)
    requires IsWidth(limit) && num < limit
    ensures SizeOf(num, limit) == |Encoding(num)|
  {
    Pow128Values();
    var n := SizeOf(num, limit);
    HighDigitsLength(num / 128, n - 1);
    if n > 1 {
      HighDigitsLength(num / 128, n - 2);
    }
  }

  // ----- reading from a section in memory

  datatype ReadResult = Read(value: nat, rest: seq<byte>) | ReadFail

  /** READ_INTEGER_TYPE with `val` already accumulated. */
  function ReadFrom(val: nat, input: seq<byte>, limit: nat): (r: ReadResult)
    decreases |input|
  {
    if input == [] then ReadFail
    else if val >= limit / 128 then ReadFail
    else
      var v := val * 128 + input[0] % 128;
      if input[0] >= 128 then ReadFrom(v, input[1..], limit) else Read(v, input[1..])
  }

  function ReadInteger(input: seq<byte>, limit: nat): (r: ReadResult) {
    ReadFrom(0, input, limit)
  }

  method ReadIntegerLoop(input: seq<byte>, limit: nat) returns (ok: bool, val: nat, used: nat)
    requires IsWidth(limit)
    ensures ok <==> ReadInteger(input, limit).Read?
    ensures ok ==> used <= |input| && ReadInteger(input, limit) == Read(val, input[used..])
  {
    ok, val, used := false, 0, 0;
    var more := true;
    while more
      invariant used <= |input|
      invariant more ==> ReadInteger(input, limit) == ReadFrom(val, input[used..], limit)
      invariant !more ==> ReadInteger(input, limit) == Read(val, input[used..])
      decreases more, |input| - used
    {
      if used == |input| {
        return;
      }
      if val >= limit / 128 {
        return;
      }
      var next := input[used];
      used := used + 1;
      val := val * 128 + next % 128;
      more := next >= 128;
    }
    ok := true;
  }

  /** The value after accumulating all of `s` onto `val`. */
  function Accumulated(val: nat, s: seq<byte>): (v: nat)
    decreases |s|
  {
    if s == [] then val else Accumulated(val * 128 + s[0] % 128, s[1..])
  }

  lemma {:induction false} AccumulatedGrows(val: nat, s: seq<byte>)
    ensures Accumulated(val, s) >= val
    ensures s != [] ==> Accumulated(val, s) >= 128 * val
    decreases |s|
  {
    if s != [] {
      AccumulatedGrows(val * 128 + s[0] % 128, s[1..]);
    }
  }

  lemma {:induction false} AccumulatedLast(val: nat, s: seq<byte>)
    requires s != []
    ensures Accumulated(val, s) == 128 * Accumulated(val, s[..|s| - 1]) + s[|s| - 1] % 128
    decreases |s|
  {
    if |s| == 1 {
      assert s[1..] == [] && s[..0] == [];
    } else {
      var v := val * 128 + s[0] % 128;
      AccumulatedLast(v, s[1..]);
      assert s[1..][..|s| - 2] == s[..|s| - 1][1..];
    }
  }

  lemma {:induction false} AccumulatedIsValue(s: seq<byte>)
    ensures Accumulated(0, s) == Value(s)
    decreases |s|
  {
    if s != [] {
      AccumulatedLast(0, s);
      AccumulatedIsValue(s[..|s| - 1]);
    }
  }

  /** What `ReadFrom` accepts: a terminated digit string whose accumulated value fits the word. */
  lemma {:induction false} ReadFromMeaning(val: nat, s: seq<byte>, rest: seq<byte>, limit: nat)
    requires IsWidth(limit) && Terminated(s)
    ensures ReadFrom(val, s + rest, limit) ==
            if Accumulated(val, s) < limit then Read(Accumulated(val, s), rest) else ReadFail
    decreases |s|
  {
    var input := s + rest;
    assert input[0] == s[0] && input[1..] == s[1..] + rest;
    var v := val * 128 + s[0] % 128;
    if val >= limit / 128 {
      AccumulatedGrows(val, s);
    } else if |s| == 1 {
      assert s[1..] == [] && [] + rest == rest;
    } else {
      ReadFromMeaning(v, s[1..], rest, limit);
    }
  }

  /** Conversely, a number that was read is the accumulated value of what was consumed. */
  lemma {:induction false} ReadFromConsumes(val: nat, input: seq<byte>, limit: nat)
    requires IsWidth(limit) && ReadFrom(val, input, limit).Read?
    ensures var r := ReadFrom(val, input, limit);
            && |r.rest| < |input| && input[|input| - |r.rest|..] == r.rest
            && r.value == Accumulated(val, input[..|input| - |r.rest|])
            && r.value < limit
    decreases |input|
  {
    var v := val * 128 + input[0] % 128;
    var r := ReadFrom(val, input, limit);
    var n := |input| - |r.rest|;
    if input[0] >= 128 {
      ReadFromConsumes(v, input[1..], limit);
      assert input[..n][1..] == input[1..][..n - 1];
    } else {
      assert n == 1 && input[..1][1..] == [];
    }
  }

  /** And what was consumed is one complete integer. */
  lemma {:induction false} ReadTakesOne(val: nat, input: seq<byte>, limit: nat)
    requires IsWidth(limit) && ReadFrom(val, input, limit).Read?
    ensures |ReadFrom(val, input, limit).rest| < |input|
    ensures Terminated(input[..|input| - |ReadFrom(val, input, limit).rest|])
    decreases |input|
  {
    if input[0] >= 128 {
      var v := val * 128 + input[0] % 128;
      ReadTakesOne(v, input[1..], limit);
      var n := |input| - |ReadFrom(v, input[1..], limit).rest|;
      assert forall i :: 0 < i < n ==> input[i] == input[1..][..n - 1][i - 1];
    }
  }

  /** A complete digit string is accepted exactly when the number it denotes fits the word. */
  lemma ReadAcceptsExactlyFitting(s: seq<byte>, rest: seq<byte>, limit: nat)
    requires IsWidth(limit) && Terminated(s)
    ensures ReadInteger(s + rest, limit) ==
            if Value(s) < limit then Read(Value(s), rest) else ReadFail
  {
    ReadFromMeaning(0, s, rest, limit);
    AccumulatedIsValue(s);
  }

  /** Emit, then read: the identity, consuming exactly the emitted bytes. */
  lemma EmitThenRead(num: nat, rest: seq<byte>, limit: nat)
    requires IsWidth(limit) && num < limit
    ensures ReadInteger(Encoding(num) + rest, limit) == Read(num, rest)
  {
    EncodingMeaning(num);
    ReadAcceptsExactlyFitting(Encoding(num), rest, limit);
  }

  /** An unterminated string never yields a number. */
  lemma {:induction false} ReadNeedsTerminator(val: nat, s: seq<byte>, limit: nat)
    requires forall i :: 0 <= i < |s| ==> s[i] >= 128
    ensures ReadFrom(val, s, limit) == ReadFail
    decreases |s|
  {
    if s != [] && val < limit / 128 {
      ReadNeedsTerminator(val * 128 + s[0] % 128, s[1..], limit);
    }
  }

  // ----- the resumable reader

  datatype DecodeResult =
    | Done(value: nat, rest: seq<byte>)
    | More(part: nat)
    | Overflow

  /** DECODE_INTEGER_TYPE: `part` survives between calls, the input is what is available now. */
  function DecodeInteger(part: nat, input: seq<byte>, limit: nat): (r: DecodeResult)
    decreases |input|
  {
    if input == [] then More(part)
    else if part >= limit / 128 then Overflow
    else
      var v := part * 128 + input[0] % 128;
      if input[0] < 128 then Done(v, input[1..]) else DecodeInteger(v, input[1..], limit)
  }

  /** Cutting the input anywhere changes nothing: resume with the saved part. */
  lemma {:induction false} DecodeResumes(part: nat, a: seq<byte>, b: seq<byte>, limit: nat)
    ensures DecodeInteger(part, a + b, limit) ==
            match DecodeInteger(part, a, limit)
            case Done(v, rest) => Done(v, rest + b)
            case More(p) => DecodeInteger(p, b, limit)
            case Overflow => Overflow
    decreases |a|
  {
    if a == [] {
      assert a + b == b;
    } else {
      assert (a + b)[0] == a[0] && (a + b)[1..] == a[1..] + b;
      if part < limit / 128 && a[0] >= 128 {
        DecodeResumes(part * 128 + a[0] % 128, a[1..], b, limit);
      }
    }
  }

  /** On any input, the resumable reader and the one-shot reader agree. */
  lemma {:induction false} DecodeAgreesWithRead(part: nat, input: seq<byte>, limit: nat)
    ensures ReadFrom(part, input, limit) ==
            match DecodeInteger(part, input, limit)
            case Done(v, rest) => Read(v, rest)
            case More(_) => ReadFail
            case Overflow => ReadFail
    decreases |input|
  {
    if input != [] && part < limit / 128 && input[0] >= 128 {
      DecodeAgreesWithRead(part * 128 + input[0] % 128, input[1..], limit);
    }
  }
}
