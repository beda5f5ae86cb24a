/**
 The Adler-32 checksum (section 2.2 of RFC 1950), computed in blocks with the modulus deferred to
 the end of each block.  The accumulators are 32-bit words; that they never wrap is proved.
 */
module Adler32 {
  import opened Bytes

  const BASE: nat := 65521
  const NMAX: nat := 5552

  datatype Halves = Halves(s1: nat, s2: nat)

  /** The definition: both sums are reduced after every byte. */
  function Sum(h: Halves, buf: seq<byte>): (r: Halves)
    ensures h.s1 < BASE && h.s2 < BASE ==> r.s1 < BASE && r.s2 < BASE
  {
    if buf == [] then h
    else
      var p := Sum(h, buf[..|buf| - 1]);
      var s1 := (p.s1 + buf[|buf| - 1]) % BASE;
      Halves(s1, (p.s2 + s1) % BASE)
  }

  function Checksum(adler: nat, buf: seq<byte>): (r: nat)
    requires adler < TWO32
  {
    var h := Sum(Halves(adler % 0x1_0000, adler / 0x1_0000), buf);
    h.s2 * 0x1_0000 + h.s1
  }

  // ----- the sums without any modulus

  function Raw(h: Halves, buf: seq<byte>): (r: Halves)
  {
    if buf == [] then h
    else
      var p := Raw(h, buf[..|buf| - 1]);
      var s1 := p.s1 + buf[|buf| - 1];
      Halves(s1, p.s2 + s1)
  }

  lemma {:induction false} RawAppend(h: Halves, a: seq<byte>, b: seq<byte>)
    ensures Raw(h, a + b) == Raw(Raw(h, a), b)
  {
    if b == [] {
      assert a + b == a;
    } else {
      RawAppend(h, a, b[..|b| - 1]);
      assert (a + b)[..|a + b| - 1] == a + b[..|b| - 1];
    }
  }

  lemma {:induction false} SumAppend(h: Halves, a: seq<byte>, b: seq<byte>)
    ensures Sum(h, a + b) == Sum(Sum(h, a), b)
  {
    if b == [] {
      assert a + b == a;
    } else {
      SumAppend(h, a, b[..|b| - 1]);
      assert (a + b)[..|a + b| - 1] == a + b[..|b| - 1];
    }
  }

  lemma ModAdd(a: nat, b: nat)
    ensures (a % BASE + b) % BASE == (a + b) % BASE
    ensures (a + b % BASE) % BASE == (a + b) % BASE
  {
  }

  /** Reducing at the end is reducing all along. */
  lemma {:induction false} RawReduces(h: Halves, buf: seq<byte>)
    requires h.s1 < BASE && h.s2 < BASE
    ensures Sum(h, buf) == Reduced(Raw(h, buf))
  {
    hide *;
    if buf == [] {
      NothingReduced(h);
    } else {
      RawReduces(h, buf[..|buf| - 1]);
      StepReduces(h, buf, Raw(h, buf[..|buf| - 1]));
    }
  }

  function Mod(x: nat): nat {
    x % BASE
  }

  function Reduced(h: Halves): (r: Halves)
    ensures r.s1 < BASE && r.s2 < BASE
  {
    Halves(h.s1 % BASE, h.s2 % BASE)
  }

  lemma NothingReduced(h: Halves)
    requires h.s1 < BASE && h.s2 < BASE
    ensures Sum(h, []) == Reduced(Raw(h, []))
  {
  }

  lemma StepReduces(h: Halves, buf: seq<byte>, p: Halves)
    requires buf != [] && p == Raw(h, buf[..|buf| - 1]) && Sum(h, buf[..|buf| - 1]) == Reduced(p)
    ensures Sum(h, buf) == Reduced(Raw(h, buf))
  {
    hide *;
    Steps(h, buf);
    ModSteps(p.s1, p.s2, buf[|buf| - 1]);
    ReducedParts(p);
    ReducedParts(Raw(h, buf));
  }

  lemma ReducedParts(h: Halves)
    ensures Reduced(h) == Halves(Mod(h.s1), Mod(h.s2))
  {
  }

  /** One step on reduced sums is the reduced step. */
  lemma ModSteps(x: nat, y: nat, b: nat)
    ensures Mod(Mod(x) + b) == Mod(x + b) && Mod(Mod(y) + Mod(Mod(x) + b)) == Mod(y + (x + b))
  {
    ModAdd(x, b);
    ModAdd(y, x + b);
    ModAdd(y % BASE, x + b);
  }

  lemma Steps(h: Halves, buf: seq<byte>)
    requires buf != []
    ensures var b, p, q := buf[|buf| - 1], Sum(h, buf[..|buf| - 1]), Raw(h, buf[..|buf| - 1]);
            && Sum(h, buf) == Halves(Mod(p.s1 + b), Mod(p.s2 + Mod(p.s1 + b)))
            && Raw(h, buf) == Halves(q.s1 + b, q.s2 + (q.s1 + b))
  {
  }

  // ----- how large the sums get

  /** The largest value of the second sum after `n` bytes. */
  function Bound(n: nat): nat {
    if n == 0 then BASE - 1 else Bound(n - 1) + (BASE - 1 + 255 * n)
  }

  lemma {:induction false} BoundClosed(n: nat)
    ensures 2 * Bound(n) == 2 * (n + 1) * (BASE - 1) + 255 * n * (n + 1)
  {
    if n > 0 {
      BoundClosed(n - 1);
    }
  }

  lemma {:induction false} BoundGrows(n: nat, m: nat)
    requires n <= m
    ensures Bound(n) <= Bound(m)
    decreases m
  {
    if n < m {
      BoundGrows(n, m - 1);
    }
  }

  lemma {:induction false} RawBounded(h: Halves, buf: seq<byte>)
    requires h.s1 < BASE && h.s2 < BASE
    ensures Raw(h, buf).s1 <= BASE - 1 + 255 * |buf| && Raw(h, buf).s2 <= Bound(|buf|)
  {
    if buf != [] {
      RawBounded(h, buf[..|buf| - 1]);
    }
  }

  function Full(n: nat): (r: seq<byte>)
    ensures |r| == n
  {
    seq(n, i => 255)
  }

  /** The bounds are reached: by bytes of 255 from the largest sums on. */
  lemma {:induction false} BoundReached(n: nat)
    ensures Raw(Halves(BASE - 1, BASE - 1), Full(n)) == Halves(BASE - 1 + 255 * n, Bound(n))
  {
    if n > 0 {
      BoundReached(n - 1);
      assert Full(n)[..n - 1] == Full(n - 1);
    }
  }

  /** A block of up to NMAX bytes keeps both sums below 2^32; some block of one byte more does not. */
  lemma NoOverflow(h: Halves, buf: seq<byte>)
    requires h.s1 < BASE && h.s2 < BASE && |buf| <= NMAX
    ensures Raw(h, buf).s1 < TWO32 && Raw(h, buf).s2 < TWO32
    ensures Raw(Halves(BASE - 1, BASE - 1), Full(NMAX + 1)).s2 >= TWO32
  {
    hide Raw;
    BoundReached(NMAX + 1);
    RawBounded(h, buf);
    BoundGrows(|buf|, NMAX);
    BoundClosed(NMAX);
    BoundClosed(NMAX + 1);
  }

  // ----- the code

  /** The accumulators are `uint32_t`: every addition wraps. */
  function Add32(a: nat, b: nat): nat {
    (a + b) % TWO32
  }

  /** The accumulators are right after the first `j` bytes of a block. */
  ghost predicate At(h: Halves, blk: seq<byte>, j: nat, s1: nat, s2: nat) {
    h.s1 < BASE && h.s2 < BASE && j <= |blk| <= NMAX && Halves(s1, s2) == Raw(h, blk[..j])
  }

  method Do1(ghost h: Halves, blk: seq<byte>, j: nat, s1: nat, s2: nat) returns (t1: nat, t2: nat)
    requires At(h, blk, j, s1, s2) && j + 1 <= |blk|
    ensures At(h, blk, j + 1, t1, t2)
  {
    assert blk[..j + 1][..j] == blk[..j];
    NoOverflow(h, blk[..j + 1]);
    t1 := Add32(s1, blk[j]);
    t2 := Add32(s2, t1);
  }

  method Do2(ghost h: Halves, blk: seq<byte>, j: nat, s1: nat, s2: nat) returns (t1: nat, t2: nat)
    requires At(h, blk, j, s1, s2) && j + 2 <= |blk|
    ensures At(h, blk, j + 2, t1, t2)
  {
    t1, t2 := Do1(h, blk, j, s1, s2);
    t1, t2 := Do1(h, blk, j + 1, t1, t2);
  }

  method Do4(ghost h: Halves, blk: seq<byte>, j: nat, s1: nat, s2: nat) returns (t1: nat, t2: nat)
    requires At(h, blk, j, s1, s2) && j + 4 <= |blk|
    ensures At(h, blk, j + 4, t1, t2)
  {
    t1, t2 := Do2(h, blk, j, s1, s2);
    t1, t2 := Do2(h, blk, j + 2, t1, t2);
  }

  method Do8(ghost h: Halves, blk: seq<byte>, j: nat, s1: nat, s2: nat) returns (t1: nat, t2: nat)
    requires At(h, blk, j, s1, s2) && j + 8 <= |blk|
    ensures At(h, blk, j + 8, t1, t2)
  {
    t1, t2 := Do4(h, blk, j, s1, s2);
    t1, t2 := Do4(h, blk, j + 4, t1, t2);
  }

  method Do16(ghost h: Halves, blk: seq<byte>, j: nat, s1: nat, s2: nat) returns (t1: nat, t2: nat)
    requires At(h, blk, j, s1, s2) && j + 16 <= |blk|
    ensures At(h, blk, j + 16, t1, t2)
  {
    t1, t2 := Do8(h, blk, j, s1, s2);
    t1, t2 := Do8(h, blk, j + 8, t1, t2);
  }

  lemma SumNothing(h: Halves)
    ensures Sum(h, []) == h
  {
  }

  /** One block: sixteen bytes at a time, then one at a time, and the modulus at the end. */
  method OneBlock(blk: seq<byte>, t1: nat, t2: nat) returns (s1: nat, s2: nat)
    requires |blk| <= NMAX && t1 < BASE && t2 < BASE
    ensures Halves(s1, s2) == Sum(Halves(t1, t2), blk) && s1 < BASE && s2 < BASE
  {
    ghost var h := Halves(t1, t2);
    assert blk[..0] == [];
    s1, s2 := t1, t2;
    var j: nat, k: nat := 0, |blk|;
    while k >= 16
      invariant j + k == |blk| && At(h, blk, j, s1, s2)
    {
      s1, s2 := Do16(h, blk, j, s1, s2);
      j, k := j + 16, k - 16;
    }
    while k != 0
      invariant j + k == |blk| && At(h, blk, j, s1, s2)
      decreases k
    {
      s1, s2 := Do1(h, blk, j, s1, s2);
      j, k := j + 1, k - 1;
    }
    assert blk[..j] == blk;
    RawReduces(h, blk);
    s1, s2 := s1 % BASE, s2 % BASE;
  }

  /** adler32: blocks of NMAX bytes, sixteen bytes at a time, equal the per-byte definition. */
  method Adler32(adler: nat, buf: seq<byte>) returns (r: nat)
    requires adler < TWO32 && adler % 0x1_0000 < BASE && adler / 0x1_0000 < BASE
    ensures r == Checksum(adler, buf)
  {
    hide Sum;
    var s1: nat, s2: nat := adler % 0x1_0000, adler / 0x1_0000 % 0x1_0000;
    ghost var h0 := Halves(s1, s2);
    SumNothing(h0);
    var pos: nat, len: nat := 0, |buf|;
    assert buf[..0] == [];
    while len > 0
      invariant pos + len == |buf| && s1 < BASE && s2 < BASE
      invariant Halves(s1, s2) == Sum(h0, buf[..pos])
    {
      var k := if len < NMAX then len else NMAX;
      len := len - k;
      ghost var h := Halves(s1, s2);
      var blk := buf[pos..pos + k];
      s1, s2 := OneBlock(blk, s1, s2);
      SumAppend(h0, buf[..pos], blk);
      assert buf[..pos] + blk == buf[..pos + k];
      pos := pos + k;
    }
    assert buf[..pos] == buf;
    r := s2 * 0x1_0000 + s1;
  }
}
