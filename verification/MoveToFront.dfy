/**
 How code lengths are themselves coded: each by its place in a list kept in order of recent use,
 runs of the first place in bijective base 2 with the two run symbols.
 */
module MoveToFront {
  import opened Huffman
  import opened BitPacking
  import opened CanonicalCode

  const RUN_1: nat := 1

  function IndexOf(mtf: seq<nat>, sym: nat): (j: nat)
    requires sym in mtf
    ensures j < |mtf| && mtf[j] == sym && forall k :: 0 <= k < j ==> mtf[k] != sym
  {
    if mtf[0] == sym then 0 else 1 + IndexOf(mtf[1..], sym)
  }

  function ToFront(mtf: seq<nat>, j: nat): (r: seq<nat>)
    requires j < |mtf|
    ensures |r| == |mtf| && r[0] == mtf[j]
  {
    [mtf[j]] + mtf[..j] + mtf[j + 1..]
  }

  lemma ToFrontMembers(mtf: seq<nat>, j: nat)
    requires j < |mtf|
    ensures forall x :: x in ToFront(mtf, j) <==> x in mtf
  {
    assert mtf == mtf[..j] + [mtf[j]] + mtf[j + 1..];
  }

  /** A run length in bijective base 2, least digit first. */
  function RunCodes(n: nat): seq<nat> {
    if n == 0 then [] else [(n - 1) % 2] + RunCodes((n - 1) / 2)
  }

  ghost predicate AllIn(syms: seq<nat>, mtf: seq<nat>) {
    forall i :: 0 <= i < |syms| ==> syms[i] in mtf
  }

  /** The codes of a sequence of symbols, `run` repetitions of the first symbol before it. */
  ghost function MtfCodes(syms: seq<nat>, mtf: seq<nat>, run: nat): seq<nat>
    requires AllIn(syms, mtf)
    decreases |syms|
  {
    if syms == [] then RunCodes(run)
    else
      var j := IndexOf(mtf, syms[0]);
      ToFrontMembers(mtf, j);
      if j == 0 then MtfCodes(syms[1..], mtf, run + 1)
      else RunCodes(run) + [j + RUN_1] + MtfCodes(syms[1..], ToFront(mtf, j), 0)
  }

  // ----- djw_compute_mtf_1_2

  /** djw_update_1_2: appends the codes of a run, and counts them. */
  method UpdateRun(run: nat, mtfsym0: seq<nat>, freq: array<nat>) returns (mtfsym: seq<nat>)
    requires run > 0 && freq.Length >= 2 && Counted(freq[..], mtfsym0)
    modifies freq
    ensures mtfsym == mtfsym0 + RunCodes(run) && Counted(freq[..], mtfsym)
  {
    mtfsym := mtfsym0;
    var n := run;
    while true
      invariant n > 0 && mtfsym + RunCodes(n) == mtfsym0 + RunCodes(run)
      invariant Counted(freq[..], mtfsym)
      decreases n
    {
      n := n - 1;
      var code := n % 2;
      assert RunCodes(n + 1) == [code] + RunCodes(n / 2);
      mtfsym := AppendCode(mtfsym, code, freq);
      n := n / 2;
      if n < 1 {
        assert RunCodes(0) == [];
        return;
      }
    }
  }

  lemma CountAppend(s: seq<nat>, x: nat)
    ensures forall c :: Count(s + [x], c) == Count(s, c) + if c == x then 1 else 0
  {
    assert (s + [x])[..|s|] == s;
  }

  /** The place of a symbol, and the move to the front in place. */
  method FindAndMove(mtf: array<nat>, sym: nat) returns (j: nat)
    requires sym in mtf[..]
    modifies mtf
    ensures j == IndexOf(old(mtf[..]), sym) && mtf[..] == ToFront(old(mtf[..]), j)
  {
    ghost var was := mtf[..];
    var i :| 0 <= i < |mtf[..]| && mtf[..][i] == sym;
    j := 0;
    while mtf[j] != sym
      invariant j <= i && forall k :: 0 <= k < j ==> mtf[k] != sym
      decreases i - j
    {
      j := j + 1;
    }
    MoveInPlace(mtf, j);
  }

  /** The shift that both directions use. */
  method MoveInPlace(mtf: array<nat>, j: nat)
    requires j < mtf.Length
    modifies mtf
    ensures mtf[..] == ToFront(old(mtf[..]), j)
  {
    var sym := mtf[j];
    var k := j;
    while k != 0
      invariant k <= j
      invariant forall i :: 0 <= i < k ==> mtf[i] == old(mtf[i])
      invariant forall i :: k < i <= j ==> mtf[i] == old(mtf[i - 1])
      invariant forall i :: j < i < mtf.Length ==> mtf[i] == old(mtf[i])
    {
      mtf[k] := mtf[k - 1];
      k := k - 1;
    }
    mtf[0] := sym;
  }

  ghost predicate Counted(freq: seq<nat>, codes: seq<nat>) {
    forall c :: 0 <= c < |freq| ==> freq[c] == Count(codes, c)
  }

  method ComputeMtf12(symbol: seq<nat>, mtf: array<nat>, freq: array<nat>) returns (mtfsym: seq<nat>)
    requires AllIn(symbol, mtf[..]) && freq.Length > mtf.Length > 0 && freq != mtf
    modifies mtf, freq
    ensures mtfsym == old(MtfCodes(symbol, mtf[..], 0))
    ensures Counted(freq[..], mtfsym)
  {
    ghost var start := mtf[..];
    forall i | 0 <= i < freq.Length { freq[i] := 0; }
    assert mtf[..] == start;
    mtfsym := [];
    var run := 0;
    assert symbol[0..] == symbol;
    for i := 0 to |symbol|
      invariant AllIn(symbol[i..], mtf[..]) && mtfsym + MtfCodes(symbol[i..], mtf[..], run)
                == MtfCodes(symbol, start, 0)
      invariant Counted(freq[..], mtfsym)
    {
      assert symbol[i..] == [symbol[i]] + symbol[i + 1..];
      mtfsym, run := NextSymbol(symbol[i], symbol[i + 1..], mtf, freq, run, mtfsym);
    }
    assert symbol[|symbol|..] == [];
    if run > 0 {
      mtfsym := UpdateRun(run, mtfsym, freq);
    }
  }

  method NextSymbol(sym: nat, ghost rest: seq<nat>, mtf: array<nat>, freq: array<nat>, run0: nat, mtfsym0: seq<nat>)
    returns (mtfsym: seq<nat>, run: nat)
    requires AllIn([sym] + rest, mtf[..]) && freq.Length > mtf.Length > 0 && freq != mtf && Counted(freq[..], mtfsym0)
    modifies mtf, freq
    ensures AllIn(rest, mtf[..]) && Counted(freq[..], mtfsym)
    ensures mtfsym + MtfCodes(rest, mtf[..], run) == mtfsym0 + old(MtfCodes([sym] + rest, mtf[..], run0))
  {
    hide MtfCodes, AllIn, Counted, ToFront, RunCodes;
    mtfsym, run := mtfsym0, run0;
    ghost var before := mtf[..];
    MtfStep(sym, rest, before, run);
    var j := FindAndMove(mtf, sym);
    if j == 0 {
      run := run + 1;
    } else {
      if run > 0 {
        mtfsym := UpdateRun(run, mtfsym, freq);
      }
      mtfsym := AppendCode(mtfsym, j + RUN_1, freq);
      run := 0;
    }
  }

  method AppendCode(mtfsym0: seq<nat>, code: nat, freq: array<nat>) returns (mtfsym: seq<nat>)
    requires code < freq.Length && Counted(freq[..], mtfsym0)
    modifies freq
    ensures mtfsym == mtfsym0 + [code] && Counted(freq[..], mtfsym)
  {
    CountAppend(mtfsym0, code);
    mtfsym := mtfsym0 + [code];
    freq[code] := freq[code] + 1;
  }

  lemma MtfStep(sym: nat, rest: seq<nat>, mtf: seq<nat>, run: nat)
    requires AllIn([sym] + rest, mtf)
    ensures sym in mtf && RunCodes(0) == [] && ToFront(mtf, 0) == mtf
    ensures AllIn(rest, mtf) && AllIn(rest, ToFront(mtf, IndexOf(mtf, sym)))
    ensures var j := IndexOf(mtf, sym);
            MtfCodes([sym] + rest, mtf, run)
            == if j == 0 then MtfCodes(rest, mtf, run + 1)
               else RunCodes(run) + [j + RUN_1] + MtfCodes(rest, ToFront(mtf, j), 0)
  {
    assert ([sym] + rest)[0] == sym && ([sym] + rest)[1..] == rest;
    ToFrontMembers(mtf, IndexOf(mtf, sym));
    forall i | 0 <= i < |rest| ensures rest[i] in mtf { assert ([sym] + rest)[i + 1] == rest[i]; }
  }

  // ----- djw_decode_1_2

  function Same(x: nat, n: nat): (r: seq<nat>)
    ensures |r| == n
  {
    seq(n, i => x)
  }

  function Prepend(a: seq<nat>, r: Read<seq<nat>>): Read<seq<nat>> {
    match r
    case Got(v, rest) => Got(a + v, rest)
    case OutOfBits => OutOfBits
    case Corrupt => Corrupt
  }

  /** `n` units of 2^shift. */
  function Reps(n: nat, shift: nat): nat {
    n * Pow2(shift)
  }

  /** The next `left` values that the bits stand for; `shift` run codes came just before. */
  function Values(clen: seq<nat>, s: seq<bool>, mtf: seq<nat>, left: nat, shift: nat): Read<seq<nat>>
    requires 0 < |mtf| && |clen| <= |mtf| + RUN_1
    decreases |s|
  {
    if left == 0 then Got([], s)
    else
      match DecodeFrom(clen, 0, 0, s)
      case Got(code, rest) =>
        if code <= RUN_1 then
          var rep := Reps(code + 1, shift);
          if rep > left then Corrupt
          else Prepend(Same(mtf[0], rep), Values(clen, rest, mtf, left - rep, shift + 1))
        else Prepend([mtf[code - RUN_1]], Values(clen, rest, ToFront(mtf, code - RUN_1), left - 1, 0))
      case _ => Corrupt
  }

  ghost predicate InRange(clen: seq<nat>, codes: seq<nat>) {
    forall i :: 0 <= i < |codes| ==> codes[i] < |clen|
  }

  ghost function CodesBits(clen: seq<nat>, codes: seq<nat>): seq<bool>
    requires InRange(clen, codes)
  {
    if codes == [] then [] else CodeBits(clen, codes[0]) + CodesBits(clen, codes[1..])
  }

  ghost predicate HasCode(clen: seq<nat>, c: nat, d: nat) {
    c < |clen| && 0 < clen[c] <= d
  }

  /** All the codes exist and leave room for each other. */
  ghost predicate Codable(clen: seq<nat>, codes: seq<nat>, d: nat) {
    Room(clen, d) && InRange(clen, codes) && forall i :: 0 <= i < |codes| ==> HasCode(clen, codes[i], d)
  }

  lemma CodableParts(clen: seq<nat>, a: seq<nat>, b: seq<nat>, d: nat)
    requires Codable(clen, a + b, d)
    ensures Codable(clen, a, d) && Codable(clen, b, d)
  {
    var s := a + b;
    forall i | 0 <= i < |a| ensures HasCode(clen, a[i], d) { assert s[i] == a[i]; }
    forall i | 0 <= i < |b| ensures HasCode(clen, b[i], d) { assert s[|a| + i] == b[i]; }
  }

  lemma {:induction false} CodesBitsAppend(clen: seq<nat>, a: seq<nat>, b: seq<nat>)
    requires InRange(clen, a) && InRange(clen, b)
    ensures InRange(clen, a + b) && CodesBits(clen, a + b) == CodesBits(clen, a) + CodesBits(clen, b)
    decreases |a|
  {
    hide *;
    InRangeAppend(clen, a, b);
    BitsOfFirst(clen, a);
    BitsOfFirst(clen, a + b);
    if a == [] {
      assert [] + b == b && [] + CodesBits(clen, b) == CodesBits(clen, b);
    } else {
      assert (a + b)[0] == a[0] && (a + b)[1..] == a[1..] + b;
      CodesBitsAppend(clen, a[1..], b);
      Grouped(CodeBits(clen, a[0]), CodesBits(clen, a[1..]), CodesBits(clen, b));
    }
  }

  lemma InRangeAppend(clen: seq<nat>, a: seq<nat>, b: seq<nat>)
    requires InRange(clen, a) && InRange(clen, b)
    ensures InRange(clen, a + b)
  {
  }

  lemma BitsOfFirst(clen: seq<nat>, codes: seq<nat>)
    requires InRange(clen, codes)
    ensures codes == [] ==> CodesBits(clen, codes) == []
    ensures codes != [] ==> codes[0] < |clen| && InRange(clen, codes[1..])
                            && CodesBits(clen, codes) == CodeBits(clen, codes[0]) + CodesBits(clen, codes[1..])
  {
    hide CodeBits;
  }

  /** One code is read, whatever follows. */
  lemma FirstCodeRead(clen: seq<nat>, c: nat, codes: seq<nat>, rest: seq<bool>, d: nat)
    requires Codable(clen, [c] + codes, d)
    ensures Codable(clen, codes, d) && c < |clen|
    ensures DecodeFrom(clen, 0, 0, CodesBits(clen, [c] + codes) + rest) == Got(c, CodesBits(clen, codes) + rest)
  {
    hide Room, DecodeFrom;
    var all := [c] + codes;
    assert all[0] == c && all[1..] == codes;
    CodableParts(clen, [c], codes, d);
    var tail := CodesBits(clen, codes) + rest;
    assert CodesBits(clen, [c] + codes) + rest == CodeBits(clen, c) + tail;
    SymbolRoundTrip(clen, c, tail, d);
  }

  lemma SameAdds(x: nat, m: nat, n: nat, s: seq<nat>)
    ensures Same(x, m) + (Same(x, n) + s) == Same(x, m + n) + s
  {
  }

  lemma RunSplit(n: nat, shift: nat)
    ensures Reps(0, shift) == 0 && Reps(n, 0) == n
    ensures n > 0 ==> Reps(n, shift) == Reps((n - 1) % 2 + 1, shift) + Reps((n - 1) / 2, shift + 1)
  {
    if n > 0 {
      var q, b, p := (n - 1) / 2, (n - 1) % 2, Pow2(shift);
      assert n == 2 * q + b + 1;
      assert (2 * q + b + 1) * p == (b + 1) * p + q * (2 * p);
    }
  }

  lemma RunCodeRead(clen: seq<nat>, c: nat, codes: seq<nat>, tail: seq<bool>, mtf: seq<nat>, left: nat, shift: nat,
                    d: nat)
    requires 0 < |mtf| && |clen| <= |mtf| + RUN_1 && c <= RUN_1 && Reps(c + 1, shift) <= left
             && Codable(clen, [c] + codes, d)
    ensures Codable(clen, codes, d)
    ensures Values(clen, CodesBits(clen, [c] + codes) + tail, mtf, left, shift)
            == Prepend(Same(mtf[0], Reps(c + 1, shift)),
                       Values(clen, CodesBits(clen, codes) + tail, mtf, left - Reps(c + 1, shift), shift + 1))
  {
    hide Reps, CodesBits, DecodeFrom, Codable, ToFront, Room, CodeBits;
    FirstCodeRead(clen, c, codes, tail, d);
    RunPositive(c + 1, shift);
  }

  /** The codes of a run are read as that many repetitions. */
  lemma {:induction false} RunRead(clen: seq<nat>, n: nat, tail: seq<bool>, mtf: seq<nat>, left: nat, shift: nat,
                                   d: nat)
    requires 0 < |mtf| && |clen| <= |mtf| + RUN_1 && Reps(n, shift) <= left && Codable(clen, RunCodes(n), d)
    ensures Values(clen, CodesBits(clen, RunCodes(n)) + tail, mtf, left, shift)
            == Prepend(Same(mtf[0], Reps(n, shift)),
                       Values(clen, tail, mtf, left - Reps(n, shift), shift + |RunCodes(n)|))
    decreases n
  {
    hide Reps, DecodeFrom, Values, CodeBits, Room, HasCode;
    RunSplit(n, shift);
    if n == 0 {
      assert CodesBits(clen, []) + tail == tail;
      EmptyRun(mtf[0], Values(clen, tail, mtf, left, shift));
    } else {
      hide CodesBits, Codable;
      var c, m := (n - 1) % 2, (n - 1) / 2;
      RunCodeRead(clen, c, RunCodes(m), tail, mtf, left, shift, d);
      RunRead(clen, m, tail, mtf, left - Reps(c + 1, shift), shift + 1, d);
      PrependTwice(mtf[0], Reps(c + 1, shift), Reps(m, shift + 1),
                   Values(clen, tail, mtf, left - Reps(n, shift), shift + |RunCodes(n)|));
    }
  }

  lemma RunPositive(n: nat, shift: nat)
    requires n > 0
    ensures Reps(n, shift) > 0
  {
  }

  lemma EmptyRun(x: nat, r: Read<seq<nat>>)
    ensures Prepend(Same(x, 0), r) == r
  {
    if r.Got? { assert Same(x, 0) + r.value == r.value; }
  }

  lemma PrependTwice(x: nat, m: nat, n: nat, r: Read<seq<nat>>)
    ensures Prepend(Same(x, m), Prepend(Same(x, n), r)) == Prepend(Same(x, m + n), r)
  {
    if r.Got? { SameAdds(x, m, n, r.value); }
  }

  /** What djw_compute_mtf_1_2 codes djw_decode_1_2 reads back. */
  lemma {:induction false} ValuesRoundTrip(clen: seq<nat>, syms: seq<nat>, mtf: seq<nat>, run: nat, rest: seq<bool>,
                                           d: nat)
    requires 0 < |mtf| && |clen| <= |mtf| + RUN_1 && AllIn(syms, mtf)
    requires Codable(clen, MtfCodes(syms, mtf, run), d)
    ensures Values(clen, CodesBits(clen, MtfCodes(syms, mtf, run)) + rest, mtf, run + |syms|, 0)
            == Got(Same(mtf[0], run) + syms, rest)
    decreases |syms|, 0
  {
    hide *;
    if syms == [] {
      NoSymbols(syms, mtf, run);
      RunAlone(clen, mtf, run, rest, d);
    } else {
      var sym, more := syms[0], syms[1..];
      assert syms == [sym] + more;
      MtfStep(sym, more, mtf, run);
      var j := IndexOf(mtf, sym);
      if j == 0 {
        ValuesRoundTrip(clen, more, mtf, run + 1, rest, d);
        LongerRun(mtf[0], run, more);
      } else {
        OtherAfterRun(clen, j, mtf, more, rest, run, d);
      }
    }
  }

  lemma NoSymbols(syms: seq<nat>, mtf: seq<nat>, run: nat)
    requires syms == [] && AllIn(syms, mtf) && mtf != []
    ensures MtfCodes(syms, mtf, run) == RunCodes(run) && Same(mtf[0], run) + syms == Same(mtf[0], run)
  {
  }

  lemma LongerRun(x: nat, n: nat, more: seq<nat>)
    ensures Same(x, n + 1) + more == Same(x, n) + ([x] + more)
  {
  }

  lemma RunAlone(clen: seq<nat>, mtf: seq<nat>, run: nat, rest: seq<bool>, d: nat)
    requires 0 < |mtf| && |clen| <= |mtf| + RUN_1 && Codable(clen, RunCodes(run), d)
    ensures Values(clen, CodesBits(clen, RunCodes(run)) + rest, mtf, run, 0) == Got(Same(mtf[0], run), rest)
  {
    hide Codable, CodesBits, DecodeFrom, ToFront, Reps, CodeBits, Room, RunCodes, Values, Prepend;
    RunSplit(run, 0);
    RunRead(clen, run, rest, mtf, run, 0, d);
    NoneLeft(clen, rest, mtf, |RunCodes(run)|, Same(mtf[0], run));
  }

  lemma NoneLeft(clen: seq<nat>, rest: seq<bool>, mtf: seq<nat>, shift: nat, s: seq<nat>)
    requires 0 < |mtf| && |clen| <= |mtf| + RUN_1
    ensures Prepend(s, Values(clen, rest, mtf, 0, shift)) == Got(s, rest)
  {
    assert s + [] == s;
  }

  lemma OtherAfterRun(clen: seq<nat>, j: nat, mtf: seq<nat>, more: seq<nat>, rest: seq<bool>, run: nat, d: nat)
    requires 0 < j < |mtf| && |clen| <= |mtf| + RUN_1 && AllIn(more, ToFront(mtf, j))
    requires Codable(clen, RunCodes(run) + [j + RUN_1] + MtfCodes(more, ToFront(mtf, j), 0), d)
    ensures Values(clen, CodesBits(clen, RunCodes(run) + [j + RUN_1] + MtfCodes(more, ToFront(mtf, j), 0)) + rest,
                   mtf, run + 1 + |more|, 0)
            == Got(Same(mtf[0], run) + ([mtf[j]] + more), rest)
    decreases |more|, 2
  {
    hide MtfCodes, Values, DecodeFrom, AllIn, ToFront, Reps, Room, RunCodes;
    RunSplit(run, 0);
    var codes := [j + RUN_1] + MtfCodes(more, ToFront(mtf, j), 0);
    assert RunCodes(run) + [j + RUN_1] + MtfCodes(more, ToFront(mtf, j), 0) == RunCodes(run) + codes;
    CodableParts(clen, RunCodes(run), codes, d);
    CodesBitsAppend(clen, RunCodes(run), codes);
    var tail := CodesBits(clen, codes) + rest;
    assert CodesBits(clen, RunCodes(run) + codes) + rest == CodesBits(clen, RunCodes(run)) + tail;
    RunRead(clen, run, tail, mtf, run + 1 + |more|, 0, d);
    OtherRead(clen, j, mtf, more, rest, |RunCodes(run)|, d);
  }

  lemma OtherRead(clen: seq<nat>, j: nat, mtf: seq<nat>, more: seq<nat>, rest: seq<bool>, shift: nat, d: nat)
    requires 0 < j < |mtf| && |clen| <= |mtf| + RUN_1 && AllIn(more, ToFront(mtf, j))
    requires Codable(clen, [j + RUN_1] + MtfCodes(more, ToFront(mtf, j), 0), d)
    ensures Values(clen, CodesBits(clen, [j + RUN_1] + MtfCodes(more, ToFront(mtf, j), 0)) + rest, mtf, 1 + |more|,
                   shift)
            == Got([mtf[j]] + more, rest)
    decreases |more|, 1
  {
    var after := MtfCodes(more, ToFront(mtf, j), 0);
    FirstCodeRead(clen, j + RUN_1, after, rest, d);
    ValuesRoundTrip(clen, more, ToFront(mtf, j), 0, rest, d);
    assert Same(mtf[j], 0) + more == more;
  }

  // ----- the decoding loop

  /** What is still to come when `rep` repetitions are due, or the symbol at place `m`. */
  ghost function Pending(clen: seq<nat>, s: seq<bool>, mtf: seq<nat>, left: nat, rep: nat, m: nat,
                         shift: nat): Read<seq<nat>>
    requires 0 < |mtf| && |clen| <= |mtf| + RUN_1 && m < |mtf| && (m > 0 ==> left > 0)
  {
    if rep > left then Corrupt
    else if rep > 0 then Prepend(Same(mtf[0], rep), Values(clen, s, mtf, left - rep, shift))
    else if m > 0 then Prepend([mtf[m]], Values(clen, s, ToFront(mtf, m), left - 1, shift))
    else Values(clen, s, mtf, left, shift)
  }

  lemma PrependParts(a: seq<nat>, b: seq<nat>, r: Read<seq<nat>>)
    ensures Prepend(a, Prepend(b, r)) == Prepend(a + b, r)
  {
    if r.Got? { assert a + (b + r.value) == a + b + r.value; }
  }

  lemma PrependNothing(r: Read<seq<nat>>)
    ensures Prepend([], r) == r
  {
    if r.Got? { assert [] + r.value == r.value; }
  }

  lemma CorruptStays(a: seq<nat>)
    ensures Prepend(a, Corrupt) == Corrupt
  {
  }

  lemma AllDone(clen: seq<nat>, s: seq<bool>, mtf: seq<nat>, values: seq<nat>, rep: nat, shift: nat)
    requires 0 < |mtf| && |clen| <= |mtf| + RUN_1
    ensures Prepend(values, Pending(clen, s, mtf, 0, rep, 0, shift)) == if rep > 0 then Corrupt else Got(values, s)
  {
    assert values + [] == values;
  }

  lemma RepeatOnce(clen: seq<nat>, s: seq<bool>, mtf: seq<nat>, left: nat, rep: nat, shift: nat)
    requires 0 < |mtf| && |clen| <= |mtf| + RUN_1 && rep > 0 && left > 0
    ensures Pending(clen, s, mtf, left, rep, 0, shift)
            == Prepend([mtf[0]], Pending(clen, s, mtf, left - 1, rep - 1, 0, shift))
  {
    if rep <= left {
      assert Same(mtf[0], rep) == [mtf[0]] + Same(mtf[0], rep - 1);
      var r := Values(clen, s, mtf, left - rep, shift);
      PrependParts([mtf[0]], Same(mtf[0], rep - 1), r);
      EmptyRun(mtf[0], r);
    }
  }

  lemma SymbolOnce(clen: seq<nat>, s: seq<bool>, mtf: seq<nat>, left: nat, m: nat, shift: nat)
    requires |clen| <= |mtf| + RUN_1 && 0 < m < |mtf| && left > 0
    ensures Pending(clen, s, mtf, left, 0, m, shift)
            == Prepend([mtf[m]], Pending(clen, s, ToFront(mtf, m), left - 1, 0, 0, shift))
  {
  }

  /** Reading a code. */
  lemma CodeOnce(clen: seq<nat>, s: seq<bool>, mtf: seq<nat>, left: nat, shift: nat)
    requires 0 < |mtf| && |clen| <= |mtf| + RUN_1 && left > 0
    ensures var r := DecodeFrom(clen, 0, 0, s);
            var all := Pending(clen, s, mtf, left, 0, 0, shift);
            && (!r.Got? ==> all == Corrupt)
            && (r.Got? && r.value <= RUN_1 ==>
                  all == Pending(clen, r.rest, mtf, left, Reps(r.value + 1, shift), 0, shift + 1))
            && (r.Got? && r.value > RUN_1 ==> (
                  && r.value - RUN_1 < |mtf|
                  && all == Pending(clen, r.rest, mtf, left, 0, r.value - RUN_1, 0)))
  {
    hide DecodeFrom, ToFront, Same, Prepend;
    var r := DecodeFrom(clen, 0, 0, s);
    DecodedIsCode(clen, s);
    if r.Got? && r.value <= RUN_1 {
      RunPositive(r.value + 1, shift);
      hide Reps;
      CodeIsRun(clen, s, mtf, left, shift);
    }
  }

  lemma DecodedIsCode(clen: seq<nat>, s: seq<bool>)
    ensures var r := DecodeFrom(clen, 0, 0, s); r.Got? ==> |r.rest| < |s| && r.value < |clen|
  {
  }

  lemma CodeIsRun(clen: seq<nat>, s: seq<bool>, mtf: seq<nat>, left: nat, shift: nat)
    requires 0 < |mtf| && |clen| <= |mtf| + RUN_1 && left > 0
    requires DecodeFrom(clen, 0, 0, s).Got? && DecodeFrom(clen, 0, 0, s).value <= RUN_1
    requires Reps(DecodeFrom(clen, 0, 0, s).value + 1, shift) > 0
    ensures var r := DecodeFrom(clen, 0, 0, s);
            Pending(clen, s, mtf, left, 0, 0, shift)
              == Pending(clen, r.rest, mtf, left, Reps(r.value + 1, shift), 0, shift + 1)
  {
    hide DecodeFrom, ToFront, Same, Prepend, Reps;
  }

  /** djw_decode_1_2: one value a round. */
  method Decode12(reader: BitReader, t: Tables, ghost clen: seq<nat>, mtfvals: array<nat>, elts: nat)
    returns (ok: bool, values: seq<nat>)
    requires reader.Valid() && Tabulates(t, clen) && 0 < mtfvals.Length && |clen| <= mtfvals.Length + RUN_1
    modifies reader, mtfvals
    ensures reader.Valid() && ok == old(Values(clen, reader.Rest(), mtfvals[..], elts, 0)).Got?
    ensures ok ==> Got(values, reader.Rest()) == old(Values(clen, reader.Rest(), mtfvals[..], elts, 0))
  {
    hide Tabulates, DecodeFrom, Prepend, BitReader.Valid, BitReader.Rest, ToFront;
    ghost var all := Values(clen, reader.Rest(), mtfvals[..], elts, 0);
    var rep: nat, m: nat, s: nat := 0, 0, 0;
    values := [];
    PrependNothing(all);
    while |values| < elts
      invariant reader.Valid() && |values| <= elts && m < mtfvals.Length && (m > 0 ==> rep == 0 && |values| < elts)
      invariant all == Prepend(values, Pending(clen, reader.Rest(), mtfvals[..], elts - |values|, rep, m, s))
      decreases elts - |values|, |reader.Rest()|, if m > 0 || rep > 0 then 0 else 1
    {
      hide Pending, Values;
      var left := elts - |values|;
      if rep != 0 {
        RepeatOnce(clen, reader.Rest(), mtfvals[..], left, rep, s);
        PrependParts(values, [mtfvals[0]], Pending(clen, reader.Rest(), mtfvals[..], left - 1, rep - 1, 0, s));
        values := values + [mtfvals[0]];
        rep := rep - 1;
      } else if m != 0 {
        SymbolOnce(clen, reader.Rest(), mtfvals[..], left, m, s);
        PrependParts(values, [mtfvals[m]], Pending(clen, reader.Rest(), ToFront(mtfvals[..], m), left - 1, 0, 0, s));
        values := values + [mtfvals[m]];
        MoveInPlace(mtfvals, m);
        m := 0;
      } else {
        CodeOnce(clen, reader.Rest(), mtfvals[..], left, s);
        var sym;
        ok, sym := DecodeSymbol(reader, t, clen);
        if !ok {
          CorruptStays(values);
          return;
        }
        if sym <= RUN_1 {
          rep, s := Reps(sym + 1, s), s + 1;
        } else {
          m, s := sym - RUN_1, 0;
        }
      }
    }
    AllDone(clen, reader.Rest(), mtfvals[..], values, rep, s);
    ok := rep == 0;
  }
}
