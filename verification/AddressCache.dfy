/**
 The address cache (section 5.1 of RFC 3284): NEAR, a ring of the latest copy addresses,
 and SAME, a direct-mapped table indexed by the address modulo 256 * s_same.
 Addresses are 64-bit `usize_t` values.
 */
module AddressCache {
  import opened Bytes
  import opened Integers

  const VCD_SELF := 0
  const VCD_HERE := 1

  /** The shape of the default code table, the only one supported: 4 NEAR slots and
      3 * 256 SAME slots, hence nine modes. */
  const S_NEAR := 4
  const S_SAME := 3
  const SAME_SIZE := 768
  const MODES := 9

  /** The value of a cache: the two arrays and the ring index. */
  datatype CacheState = CacheState(near: seq<nat>, same: seq<nat>, nextSlot: nat) {
    ghost predicate Valid() {
      && |near| == S_NEAR && |same| == SAME_SIZE && nextSlot < S_NEAR
      && (forall i :: 0 <= i < S_NEAR ==> near[i] < TWO64)
      && (forall i :: 0 <= i < SAME_SIZE ==> same[i] < TWO64)
      // a slot is untouched or holds an address that belongs there
      && (forall i :: 0 <= i < SAME_SIZE ==> same[i] == 0 || same[i] % SAME_SIZE == i)
    }

    function Update(addr: nat): (c: CacheState)
      requires Valid() && addr < TWO64
      ensures c.Valid()
    {
      CacheState(near[nextSlot := addr], same[addr % SAME_SIZE := addr], (nextSlot + 1) % S_NEAR)
    }
  }

  function Zeros(n: nat): seq<nat> {
    seq(n, i => 0)
  }

  function InitialCache(): (c: CacheState)
    ensures c.Valid()
  {
    CacheState(Zeros(S_NEAR), Zeros(SAME_SIZE), 0)
  }

  // ----- what the cache holds

  /** The cache after a sequence of addresses. */
  function After(addrs: seq<nat>): (c: CacheState)
    requires forall i :: 0 <= i < |addrs| ==> addrs[i] < TWO64
    ensures c.Valid()
  {
    if addrs == [] then InitialCache() else After(addrs[..|addrs| - 1]).Update(addrs[|addrs| - 1])
  }

  /** `x` is the last of the addresses that belong in SAME slot `s`, or 0 if there is none. */
  ghost predicate LastIn(addrs: seq<nat>, s: nat, x: nat) {
    || (x == 0 && forall i :: 0 <= i < |addrs| ==> addrs[i] % SAME_SIZE != s)
    || exists i :: LastAt(addrs, s, i) && addrs[i] == x
  }

  ghost predicate LastAt(addrs: seq<nat>, s: nat, i: int) {
    0 <= i < |addrs| && addrs[i] % SAME_SIZE == s && forall j :: i < j < |addrs| ==> addrs[j] % SAME_SIZE != s
  }

  /** The NEAR slot of the `i`-th address. */
  function Slot(i: nat): (s: nat)
    ensures s < S_NEAR
  {
    i % S_NEAR
  }

  /** The NEAR slots are a ring of the four latest addresses, zero where there are not that many. */
  lemma {:induction false} NearHolds(addrs: seq<nat>, k: nat)
    requires forall i :: 0 <= i < |addrs| ==> addrs[i] < TWO64
    requires k < S_NEAR
    ensures After(addrs).nextSlot == Slot(|addrs|)
    ensures k < |addrs| ==> After(addrs).near[Slot(|addrs| - 1 - k)] == addrs[|addrs| - 1 - k]
    ensures k >= |addrs| ==> After(addrs).near[k] == 0
    decreases |addrs|
  {
    hide *;
    NearSize();
    if addrs == [] {
      NothingHeld(k);
    } else {
      var n := |addrs| - 1;
      var front := addrs[..n];
      AfterLast(addrs);
      OtherSlot(n, k);
      NearHolds(front, if 0 < k <= n then k - 1 else k);
    }
  }

  lemma NearSize()
    ensures S_NEAR == 4
  {
  }

  lemma NothingHeld(k: nat)
    requires k < S_NEAR
    ensures After([]).nextSlot == Slot(0) && |After([]).near| == S_NEAR && After([]).near[k] == 0
  {
  }

  lemma AfterLast(addrs: seq<nat>)
    requires addrs != [] && forall i :: 0 <= i < |addrs| ==> addrs[i] < TWO64
    ensures var n := |addrs| - 1;
            var front := After(addrs[..n]);
            && |After(addrs).near| == |front.near| == S_NEAR && front.nextSlot < S_NEAR
            && (front.nextSlot == Slot(n) ==> After(addrs).nextSlot == Slot(n + 1))
            && After(addrs).near == front.near[front.nextSlot := addrs[n]]
  {
    hide After;
    AfterUpdate(addrs);
  }

  lemma AfterUpdate(addrs: seq<nat>)
    requires addrs != [] && forall i :: 0 <= i < |addrs| ==> addrs[i] < TWO64
    ensures After(addrs) == After(addrs[..|addrs| - 1]).Update(addrs[|addrs| - 1])
  {
  }

  lemma OtherSlot(n: nat, k: nat)
    requires k < S_NEAR
    ensures 0 < k <= n ==> Slot(n - k) != Slot(n)
    ensures k > n ==> Slot(n) != k
  {
  }

  /** A SAME slot holds the latest of its addresses. */
  lemma {:induction false} SameHolds(addrs: seq<nat>, s: nat)
    requires forall i :: 0 <= i < |addrs| ==> addrs[i] < TWO64
    requires s < SAME_SIZE
    ensures LastIn(addrs, s, After(addrs).same[s])
    decreases |addrs|
  {
    if addrs != [] {
      var n := |addrs| - 1;
      var front := addrs[..n];
      SameHolds(front, s);
      if addrs[n] % SAME_SIZE == s {
        assert LastAt(addrs, s, n);
      } else if exists i :: LastAt(front, s, i) && front[i] == After(front).same[s] {
        var i :| LastAt(front, s, i) && front[i] == After(front).same[s];
        assert LastAt(addrs, s, i);
      }
    }
  }

  // ----- decoding an address

  datatype AddressResult = Address(addr: nat, rest: seq<byte>) | BadAddress

  /** xd3_decode_address without its cache update; sums and differences wrap at 64 bits. */
  function DecodeAddress(c: CacheState, here: nat, mode: nat, input: seq<byte>): (r: AddressResult)
    requires c.Valid() && mode < MODES
  {
    if mode < 2 + S_NEAR then
      match ReadInteger(input, TWO64)
      case ReadFail => BadAddress
      case Read(v, rest) =>
        Address(if mode == VCD_SELF then v
                else if mode == VCD_HERE then (here - v) % TWO64
                else (v + c.near[mode - 2]) % TWO64,
                rest)
    else if input == [] then BadAddress
    else Address(c.same[256 * (mode - 2 - S_NEAR) + input[0]], input[1..])
  }

  /** So in NEAR mode a number is read relative to one of the four latest addresses. */
  lemma NearReads(addrs: seq<nat>, k: nat, n: nat, here: nat, rest: seq<byte>)
    requires forall i :: 0 <= i < |addrs| ==> addrs[i] < TWO64
    requires k < S_NEAR && k < |addrs| && n < TWO64
    ensures DecodeAddress(After(addrs), here, 2 + Slot(|addrs| - 1 - k), Encoding(n) + rest)
         == Address((n + addrs[|addrs| - 1 - k]) % TWO64, rest)
  {
    hide *;
    NearHolds(addrs, k);
    ReadsNear(After(addrs), here, Slot(|addrs| - 1 - k), n, rest);
  }

  lemma ReadsNear(c: CacheState, here: nat, slot: nat, n: nat, rest: seq<byte>)
    requires c.Valid() && slot < S_NEAR && n < TWO64
    ensures DecodeAddress(c, here, 2 + slot, Encoding(n) + rest) == Address((n + c.near[slot]) % TWO64, rest)
  {
    hide Encoding;
    EmitThenRead(n, rest, TWO64);
  }

  /** And a byte in SAME mode as the latest address of its slot. */
  lemma SameReads(addrs: seq<nat>, i: nat, here: nat, rest: seq<byte>)
    requires forall i :: 0 <= i < |addrs| ==> addrs[i] < TWO64
    requires i < |addrs| && LastAt(addrs, addrs[i] % SAME_SIZE, i)
    ensures var slot := addrs[i] % SAME_SIZE;
            DecodeAddress(After(addrs), here, 2 + S_NEAR + slot / 256, [slot % 256] + rest) == Address(addrs[i], rest)
  {
    hide After;
    SameHolds(addrs, addrs[i] % SAME_SIZE);
    assert ([addrs[i] % SAME_SIZE % 256] + rest)[1..] == rest;
  }

  // ----- choosing a mode

  datatype Choice = Choice(d: nat, mode: nat, settled: bool)

  /** The SMALLEST_INT test.  Its mask is an `unsigned int`, so of a 64-bit value only the low 32
      bits are looked at. */
  predicate LooksSmall(d: nat) {
    d % TWO32 < 128
  }

  /** The loop over the NEAR slots from slot `i` on. */
  function ChooseNear(near: seq<nat>, addr: nat, i: nat, best: Choice): (r: Choice)
    requires i <= |near|
    decreases |near| - i
  {
    if i == |near| then best
    else if addr >= near[i] && addr - near[i] < best.d then
      var d := addr - near[i];
      if LooksSmall(d) then Choice(d, i + 2, true)
      else ChooseNear(near, addr, i + 1, Choice(d, i + 2, false))
    else ChooseNear(near, addr, i + 1, best)
  }

  function ChooseInteger(c: CacheState, addr: nat, here: nat): (r: Choice)
    requires addr < here
  {
    if LooksSmall(addr) then Choice(addr, VCD_SELF, true)
    else if here - addr < addr then
      if LooksSmall(here - addr) then Choice(here - addr, VCD_HERE, true)
      else ChooseNear(c.near, addr, 0, Choice(here - addr, VCD_HERE, false))
    else ChooseNear(c.near, addr, 0, Choice(addr, VCD_SELF, false))
  }

  predicate SameHit(c: CacheState, addr: nat)
    requires c.Valid()
  {
    c.same[addr % SAME_SIZE] == addr
  }

  /** The mode and the ADDR bytes xd3_encode_address settles on. */
  function EncodeAddress(c: CacheState, addr: nat, here: nat): (r: (nat, seq<byte>))
    requires addr < here && c.Valid()
  {
    var best := ChooseInteger(c, addr, here);
    if !best.settled && SameHit(c, addr) then
      (2 + S_NEAR + addr % SAME_SIZE / 256, [addr % SAME_SIZE % 256])
    else (best.mode, Encoding(best.d))
  }

  /** A choice is usable: its number, under its mode, stands for the address. */
  ghost predicate Stands(c: CacheState, addr: nat, here: nat, choice: Choice)
    requires |c.near| == S_NEAR
  {
    && choice.mode < 2 + S_NEAR
    && (choice.mode == VCD_SELF ==> choice.d == addr)
    && (choice.mode == VCD_HERE ==> choice.d == here - addr)
    && (choice.mode >= 2 ==> choice.d + c.near[choice.mode - 2] == addr)
  }

  lemma {:induction false} ChooseNearStands(c: CacheState, addr: nat, here: nat, i: nat, best: Choice)
    requires |c.near| == S_NEAR && i <= S_NEAR && Stands(c, addr, here, best)
    ensures Stands(c, addr, here, ChooseNear(c.near, addr, i, best))
    decreases |c.near| - i
  {
    if i < |c.near| {
      if addr >= c.near[i] && addr - c.near[i] < best.d {
        ChooseNearStands(c, addr, here, i + 1, Choice(addr - c.near[i], i + 2, false));
      } else {
        ChooseNearStands(c, addr, here, i + 1, best);
      }
    }
  }

  lemma ChooseIntegerStands(c: CacheState, addr: nat, here: nat)
    requires |c.near| == S_NEAR && addr < here
    ensures Stands(c, addr, here, ChooseInteger(c, addr, here))
  {
    ChooseNearStands(c, addr, here, 0, Choice(addr, VCD_SELF, false));
    ChooseNearStands(c, addr, here, 0, Choice(here - addr, VCD_HERE, false));
  }

  /** Lockstep: whatever mode the encoder picks, the decoder, holding the same cache, gets the
      address back and consumes exactly the bytes emitted for it. */
  lemma EncodeThenDecode(c: CacheState, addr: nat, here: nat, rest: seq<byte>)
    requires c.Valid() && addr < here < TWO64
    ensures var (mode, code) := EncodeAddress(c, addr, here);
            mode < MODES && DecodeAddress(c, here, mode, code + rest) == Address(addr, rest)
  {
    var (mode, code) := EncodeAddress(c, addr, here);
    var best := ChooseInteger(c, addr, here);
    if !best.settled && SameHit(c, addr) {
      assert (code + rest)[1..] == rest;
    } else {
      ChooseIntegerStands(c, addr, here);
      StandsDecodes(c, addr, here, best, rest);
    }
  }

  lemma StandsDecodes(c: CacheState, addr: nat, here: nat, choice: Choice, rest: seq<byte>)
    requires c.Valid() && addr < here < TWO64 && Stands(c, addr, here, choice)
    ensures DecodeAddress(c, here, choice.mode, Encoding(choice.d) + rest) == Address(addr, rest)
  {
    EmitThenRead(choice.d, rest, TWO64);
    NoWrap(addr);
  }

  lemma NoWrap(x: nat)
    requires x < TWO64
    ensures x % TWO64 == x
  {
  }

  /** A run of copies: the modes chosen and the bytes emitted, the cache updated after each. */
  function EncodeAll(c: CacheState, jobs: seq<(nat, nat)>): (r: (seq<nat>, seq<byte>))
    requires c.Valid()
    requires forall i :: 0 <= i < |jobs| ==> jobs[i].0 < jobs[i].1 < TWO64
    decreases |jobs|
  {
    if jobs == [] then ([], [])
    else
      var (mode, code) := EncodeAddress(c, jobs[0].0, jobs[0].1);
      var (modes, codes) := EncodeAll(c.Update(jobs[0].0), jobs[1..]);
      ([mode] + modes, code + codes)
  }

  function DecodeAll(c: CacheState, heres: seq<nat>, modes: seq<nat>, input: seq<byte>):
      (r: Option<(seq<nat>, seq<byte>)>)
    requires c.Valid() && |heres| == |modes|
    decreases |heres|
  {
    if heres == [] then Some(([], input))
    else if modes[0] >= MODES then None
    else
      match DecodeAddress(c, heres[0], modes[0], input)
      case BadAddress => None
      case Address(addr, rest) =>
        if addr >= TWO64 then None else
        match DecodeAll(c.Update(addr), heres[1..], modes[1..], rest)
        case None => None
        case Some((addrs, left)) => Some(([addr] + addrs, left))
  }

  function Addrs(jobs: seq<(nat, nat)>): seq<nat> { seq(|jobs|, i requires 0 <= i < |jobs| => jobs[i].0) }
  function Heres(jobs: seq<(nat, nat)>): seq<nat> { seq(|jobs|, i requires 0 <= i < |jobs| => jobs[i].1) }

  lemma DecodeAllStep(c: CacheState, heres: seq<nat>, modes: seq<nat>, input: seq<byte>, addr: nat, rest: seq<byte>)
    requires c.Valid() && |heres| == |modes| > 0 && modes[0] < MODES && addr < TWO64
    requires DecodeAddress(c, heres[0], modes[0], input) == Address(addr, rest)
    requires DecodeAll(c.Update(addr), heres[1..], modes[1..], rest).Some?
    ensures var (addrs, left) := DecodeAll(c.Update(addr), heres[1..], modes[1..], rest).value;
            DecodeAll(c, heres, modes, input) == Some(([addr] + addrs, left))
  {
    hide DecodeAddress;
  }

  lemma JobsParts(jobs: seq<(nat, nat)>)
    ensures |Heres(jobs)| == |Addrs(jobs)| == |jobs|
    ensures jobs != [] ==> Heres(jobs)[0] == jobs[0].1 && Heres(jobs)[1..] == Heres(jobs[1..])
    ensures jobs != [] ==> Addrs(jobs) == [jobs[0].0] + Addrs(jobs[1..])
  {
  }

  /** Over any run of copies the two caches stay in step and every address comes back. */
  lemma {:induction false} LockstepOverRuns(c: CacheState, jobs: seq<(nat, nat)>, rest: seq<byte>)
    requires c.Valid()
    requires forall i :: 0 <= i < |jobs| ==> jobs[i].0 < jobs[i].1 < TWO64
    ensures var (modes, codes) := EncodeAll(c, jobs);
            |modes| == |Heres(jobs)| &&
            DecodeAll(c, Heres(jobs), modes, codes + rest) == Some((Addrs(jobs), rest))
    decreases |jobs|
  {
    hide EncodeAddress, DecodeAddress, DecodeAll, Heres, Addrs;
    JobsParts(jobs);
    if jobs == [] {
      NoJobs(c, rest);
    } else {
      var (addr, here) := jobs[0];
      var (mode, code) := EncodeAddress(c, addr, here);
      var (modes, codes) := EncodeAll(c.Update(addr), jobs[1..]);
      EncodeThenDecode(c, addr, here, codes + rest);
      LockstepOverRuns(c.Update(addr), jobs[1..], rest);
      assert code + codes + rest == code + (codes + rest);
      assert ([mode] + modes)[1..] == modes;
      DecodeAllStep(c, Heres(jobs), [mode] + modes, code + codes + rest, addr, codes + rest);
    }
  }

  lemma NoJobs(c: CacheState, rest: seq<byte>)
    requires c.Valid()
    ensures Heres([]) == Addrs([]) == [] && DecodeAll(c, [], [], [] + rest) == Some(([], rest))
  {
    assert [] + rest == rest;
  }

  // ----- the code chosen is the shortest the decoder would accept

  lemma {:induction false} ValueBound(s: seq<byte>)
    ensures Value(s) < Pow128(|s|)
  {
    if s != [] {
      ValueBound(s[..|s| - 1]);
    }
  }

  lemma ReadUsesEnough(s: seq<byte>, v: nat)
    requires s != [] && v < Pow128(|s|)
    ensures |Encoding(v)| <= |s|
  {
    HighDigitsLength(v / 128, |s| - 1);
  }

  /** A number read from exactly `s` cannot be written in fewer bytes than its encoding. */
  lemma ReadBound(s: seq<byte>)
    requires ReadInteger(s, TWO64).Read? && ReadInteger(s, TWO64).rest == []
    ensures s != [] && ReadInteger(s, TWO64).value < Pow128(|s|)
  {
    ReadFromConsumes(0, s, TWO64);
    assert s[..|s|] == s;
    AccumulatedIsValue(s);
    ValueBound(s);
  }

  lemma EncodingMonotone(a: nat, b: nat)
    requires a <= b
    ensures |Encoding(a)| <= |Encoding(b)|
  {
    var n := |HighDigits(b / 128)|;
    HighDigitsLength(b / 128, n);
    HighDigitsLength(a / 128, n);
  }

  lemma {:induction false} ChooseNearSmallest(near: seq<nat>, addr: nat, i: nat, best: Choice, k: nat)
    requires i <= |near|
    ensures var r := ChooseNear(near, addr, i, best);
            r.d <= best.d && (i <= k < |near| && near[k] <= addr && !r.settled ==> r.d <= addr - near[k])
    decreases |near| - i
  {
    if i < |near| {
      if addr >= near[i] && addr - near[i] < best.d {
        ChooseNearSmallest(near, addr, i + 1, Choice(addr - near[i], i + 2, false), k);
      } else {
        ChooseNearSmallest(near, addr, i + 1, best, k);
      }
    }
  }

  /** Without an early exit the number chosen is the least of all. */
  lemma ChooseIntegerSmallest(c: CacheState, addr: nat, here: nat, k: nat)
    requires addr < here
    ensures var best := ChooseInteger(c, addr, here);
            && best.d <= addr
            && (!best.settled ==> addr > 0 && best.d <= here - addr)
            && (!best.settled && k < |c.near| && c.near[k] <= addr ==> best.d <= addr - c.near[k])
  {
    ChooseNearSmallest(c.near, addr, 0, Choice(addr, VCD_SELF, false), k);
    ChooseNearSmallest(c.near, addr, 0, Choice(here - addr, VCD_HERE, false), k);
  }

  /** No byte string that the decoder, in any mode, would turn into this address is shorter than the
      one emitted. */
  ghost predicate Shortest(c: CacheState, addr: nat, here: nat)
    requires c.Valid() && addr < here
  {
    forall mode: nat, code: seq<byte> | mode < MODES && DecodeAddress(c, here, mode, code) == Address(addr, []) ::
      |EncodeAddress(c, addr, here).1| <= |code|
  }

  /** The SAME slot holds the address, or another usable number takes fewer bytes than `d`. */
  predicate Beaten(c: CacheState, addr: nat, here: nat, d: nat)
    requires c.Valid() && addr < here
  {
    || SameHit(c, addr)
    || |Encoding(addr)| < |Encoding(d)|
    || |Encoding(here - addr)| < |Encoding(d)|
    || exists i | 0 <= i < S_NEAR :: c.near[i] <= addr && |Encoding(addr - c.near[i])| < |Encoding(d)|
  }

  /** The test for small values stops the search early at a number that is not small, and misses a
      better one. */
  predicate Misled(c: CacheState, addr: nat, here: nat)
    requires c.Valid() && addr < here
  {
    var best := ChooseInteger(c, addr, here);
    best.settled && best.d >= 128 && Beaten(c, addr, here, best.d)
  }

  /** What is emitted is shortest except exactly when the test for small values misleads, which takes
      numbers from 2^32 on. */
  lemma EncodeIsShortest(c: CacheState, addr: nat, here: nat)
    requires c.Valid() && addr < here < TWO64
    ensures Shortest(c, addr, here) <==> !Misled(c, addr, here)
    ensures Misled(c, addr, here) ==> addr >= TWO32
  {
    hide DecodeAddress, Beaten, ChooseInteger, Encoding;
    ChooseIntegerSmallest(c, addr, here, 0);
    MisledIsFar(c, addr, here);
    if Misled(c, addr, here) {
      var mode, code := BetterCode(c, addr, here);
    } else {
      forall mode: nat, code: seq<byte> | mode < MODES && DecodeAddress(c, here, mode, code) == Address(addr, [])
        ensures |EncodeAddress(c, addr, here).1| <= |code|
      {
        NoneShorter(c, addr, here, mode, code);
      }
    }
  }

  /** An early exit is taken at a number whose low 32 bits are small. */
  lemma SettledLooksSmall(c: CacheState, addr: nat, here: nat)
    requires addr < here
    ensures var best := ChooseInteger(c, addr, here); best.settled ==> LooksSmall(best.d)
  {
    NearLooksSmall(c.near, addr, 0, Choice(addr, VCD_SELF, false));
    NearLooksSmall(c.near, addr, 0, Choice(here - addr, VCD_HERE, false));
  }

  lemma {:induction false} NearLooksSmall(near: seq<nat>, addr: nat, i: nat, best: Choice)
    requires i <= |near| && !best.settled
    ensures var r := ChooseNear(near, addr, i, best); r.settled ==> LooksSmall(r.d)
    decreases |near| - i
  {
    if i < |near| {
      if addr >= near[i] && addr - near[i] < best.d {
        NearLooksSmall(near, addr, i + 1, Choice(addr - near[i], i + 2, false));
      } else {
        NearLooksSmall(near, addr, i + 1, best);
      }
    }
  }

  lemma SmallOrFar(d: nat)
    ensures LooksSmall(d) && d >= 128 ==> d >= TWO32
  {
  }

  lemma OneByte(d: nat)
    ensures |Encoding(d)| >= 1 && (d < 128 <==> |Encoding(d)| == 1)
  {
  }

  /** What a byte string that is read as `addr` costs, mode by mode. */
  lemma NoneShorter(c: CacheState, addr: nat, here: nat, mode: nat, code: seq<byte>)
    requires c.Valid() && addr < here < TWO64 && mode < MODES && DecodeAddress(c, here, mode, code) == Address(addr, [])
    requires !Misled(c, addr, here)
    ensures |EncodeAddress(c, addr, here).1| <= |code|
  {
    hide ChooseInteger, Encoding, ReadInteger, SameHit;
    var best := ChooseInteger(c, addr, here);
    SomeBytes(c, here, mode, code);
    OneByte(best.d);
    if (best.settled || !SameHit(c, addr)) && best.d >= 128 {
      if !best.settled {
        Unbeaten(c, addr, here);
      }
      ChooseIntegerSmallest(c, addr, here, 0);
      UnbeatenIsShorter(c, addr, here, mode, code, best.d);
    }
  }

  lemma SomeBytes(c: CacheState, here: nat, mode: nat, code: seq<byte>)
    requires c.Valid() && mode < MODES && DecodeAddress(c, here, mode, code).Address?
    ensures code != []
  {
  }

  /** The least number is beaten by none but the SAME slot. */
  lemma Unbeaten(c: CacheState, addr: nat, here: nat)
    requires c.Valid() && addr < here && !ChooseInteger(c, addr, here).settled && !SameHit(c, addr)
    ensures !Beaten(c, addr, here, ChooseInteger(c, addr, here).d)
  {
    hide ChooseInteger, Encoding;
    var d := ChooseInteger(c, addr, here).d;
    ChooseIntegerSmallest(c, addr, here, 0);
    EncodingMonotone(d, addr);
    EncodingMonotone(d, here - addr);
    forall i | 0 <= i < S_NEAR && c.near[i] <= addr ensures |Encoding(d)| <= |Encoding(addr - c.near[i])| {
      ChooseIntegerSmallest(c, addr, here, i);
      EncodingMonotone(d, addr - c.near[i]);
    }
  }

  lemma UnbeatenIsShorter(c: CacheState, addr: nat, here: nat, mode: nat, code: seq<byte>, d: nat)
    requires c.Valid() && addr < here < TWO64 && mode < MODES && DecodeAddress(c, here, mode, code) == Address(addr, [])
    requires !Beaten(c, addr, here, d) && 128 <= d <= addr
    ensures |Encoding(d)| <= |code|
  {
    hide Encoding, ReadInteger;
    if mode < 2 + S_NEAR {
      var v := ReadInteger(code, TWO64).value;
      ReadFits(code);
      ReadBound(code);
      ReadUsesEnough(code, v);
      if mode == VCD_HERE {
        HereWraps(v, here, addr);
      } else if mode >= 2 {
        NearWraps(v, c.near[mode - 2], addr);
        EncodingMonotone(d, addr);
        if c.near[mode - 2] > addr { EncodingMonotone(addr, v); }
      }
    } else {
      SameOnlyThere(c, here, addr, mode, code);
    }
  }

  lemma ReadFits(code: seq<byte>)
    requires ReadInteger(code, TWO64).Read?
    ensures ReadInteger(code, TWO64).value < TWO64
  {
    ReadFromConsumes(0, code, TWO64);
  }

  /** Adding the near address wraps only for numbers above the address. */
  lemma NearWraps(v: nat, near: nat, addr: nat)
    requires v < TWO64 && near < TWO64 && (v + near) % TWO64 == addr
    ensures if near <= addr then v == addr - near else v > addr
  {
  }

  lemma HereWraps(v: nat, here: nat, addr: nat)
    requires v < TWO64 && here < TWO64 && (here - v) % TWO64 == addr < here
    ensures v == here - addr
  {
  }

  lemma SameOnlyThere(c: CacheState, here: nat, addr: nat, mode: nat, code: seq<byte>)
    requires c.Valid() && 2 + S_NEAR <= mode < MODES && addr > 0
    requires DecodeAddress(c, here, mode, code) == Address(addr, [])
    ensures SameHit(c, addr)
  {
  }

  lemma MisledIsFar(c: CacheState, addr: nat, here: nat)
    requires c.Valid() && addr < here
    ensures Misled(c, addr, here) ==> ChooseInteger(c, addr, here).d >= TWO32
  {
    hide Beaten, ChooseInteger, LooksSmall;
    SettledLooksSmall(c, addr, here);
    SmallOrFar(ChooseInteger(c, addr, here).d);
  }

  /** When the test misleads, these bytes would have been fewer. */
  lemma BetterCode(c: CacheState, addr: nat, here: nat) returns (mode: nat, code: seq<byte>)
    requires c.Valid() && addr < here < TWO64 && Misled(c, addr, here)
    ensures mode < MODES && DecodeAddress(c, here, mode, code) == Address(addr, [])
    ensures |code| < |EncodeAddress(c, addr, here).1|
  {
    hide ChooseInteger, Encoding, DecodeAddress;
    var d := ChooseInteger(c, addr, here).d;
    OneByte(d);
    if SameHit(c, addr) {
      mode, code := 2 + S_NEAR + addr % SAME_SIZE / 256, [addr % SAME_SIZE % 256];
      SameSlotRead(c, addr, here);
      return;
    }
    var choice := Choice(addr, VCD_SELF, false);
    if |Encoding(addr)| >= |Encoding(d)| {
      choice := Choice(here - addr, VCD_HERE, false);
      if |Encoding(here - addr)| >= |Encoding(d)| {
        var i :| 0 <= i < S_NEAR && c.near[i] <= addr && |Encoding(addr - c.near[i])| < |Encoding(d)|;
        choice := Choice(addr - c.near[i], i + 2, false);
      }
    }
    mode, code := choice.mode, Encoding(choice.d);
    NumberRead(c, addr, here, choice);
  }

  lemma SameSlotRead(c: CacheState, addr: nat, here: nat)
    requires c.Valid() && SameHit(c, addr)
    ensures var mode := 2 + S_NEAR + addr % SAME_SIZE / 256;
            mode < MODES && DecodeAddress(c, here, mode, [addr % SAME_SIZE % 256]) == Address(addr, [])
  {
  }

  lemma NumberRead(c: CacheState, addr: nat, here: nat, choice: Choice)
    requires c.Valid() && addr < here < TWO64 && Stands(c, addr, here, choice)
    ensures DecodeAddress(c, here, choice.mode, Encoding(choice.d)) == Address(addr, [])
  {
    hide DecodeAddress, Encoding;
    StandsDecodes(c, addr, here, choice, []);
    assert Encoding(choice.d) + [] == Encoding(choice.d);
  }

  /** Such an input: the 32-bit mask makes 2^32 look small, so five bytes are spent in SELF mode where
      one byte in HERE mode would do. */
  lemma EncodeNotShortestBeyond32Bits()
    ensures var c := InitialCache();
            && Misled(c, TWO32, TWO32 + 1) && |EncodeAddress(c, TWO32, TWO32 + 1).1| == 5
            && DecodeAddress(c, TWO32 + 1, VCD_HERE, [1]) == Address(TWO32, [])
  {
    Pow128Values();
    HighDigitsLength(TWO32 / 128, 4);
    HighDigitsLength(TWO32 / 128, 3);
    EmitThenRead(1, [], TWO64);
    assert Encoding(1) == [1] && [1] + [] == [1];
  }

  // ----- the cache object

  class AddrCache {
    const nearArray: array<nat>
    const sameArray: array<nat>
    var nextSlot: nat

    ghost predicate Valid()
      reads this, nearArray, sameArray
    {
      nearArray != sameArray && State().Valid()
    }

    ghost function State(): CacheState
      reads this, nearArray, sameArray
    {
      CacheState(nearArray[..], sameArray[..], nextSlot)
    }

    /** xd3_alloc_cache followed by xd3_init_cache. */
    constructor ()
      ensures Valid() && State() == InitialCache()
      ensures fresh(nearArray) && fresh(sameArray)
    {
      nearArray := new nat[S_NEAR](i => 0);
      sameArray := new nat[SAME_SIZE](i => 0);
      nextSlot := 0;
    }

    /** xd3_init_cache, before each window. */
    method Init()
      requires Valid()
      modifies this, nearArray, sameArray
      ensures Valid() && State() == InitialCache()
    {
      forall i | 0 <= i < nearArray.Length { nearArray[i] := 0; }
      nextSlot := 0;
      forall i | 0 <= i < sameArray.Length { sameArray[i] := 0; }
      assert nearArray[..] == Zeros(S_NEAR);
      assert sameArray[..] == Zeros(SAME_SIZE);
    }

    /** xd3_update_cache. */
    method Update(addr: nat)
      requires Valid() && addr < TWO64
      modifies this, nearArray, sameArray
      ensures Valid() && State() == old(State()).Update(addr)
    {
      nearArray[nextSlot] := addr;
      nextSlot := (nextSlot + 1) % nearArray.Length;
      sameArray[addr % sameArray.Length] := addr;
    }

    /** xd3_encode_address: the search for the smallest number, then the update. */
    method Encode(addr: nat, here: nat) returns (mode: nat, code: seq<byte>)
      requires Valid() && addr < here < TWO64
      modifies this, nearArray, sameArray
      ensures Valid() && State() == old(State()).Update(addr)
      ensures (mode, code) == EncodeAddress(old(State()), addr, here)
    {
      var bestd: nat, bestm: nat := addr, VCD_SELF;
      var good := LooksSmall(bestd);
      if !good {
        if here - addr < bestd {
          bestd, bestm := here - addr, VCD_HERE;
          good := LooksSmall(bestd);
        }
        var i := 0;
        while !good && i < nearArray.Length
          invariant 0 <= i <= nearArray.Length
          invariant ChooseInteger(State(), addr, here) ==
                    if good then Choice(bestd, bestm, true)
                    else ChooseNear(nearArray[..], addr, i, Choice(bestd, bestm, false))
          invariant bestd <= addr
        {
          if addr >= nearArray[i] {
            var d := addr - nearArray[i];
            if d < bestd {
              bestd, bestm := d, i + 2;
              good := LooksSmall(bestd);
            }
          }
          i := i + 1;
        }
      }
      if !good && sameArray[addr % sameArray.Length] == addr {
        var d := addr % sameArray.Length;
        mode := nearArray.Length + 2 + d / 256;
        code := [d % 256];
      } else {
        mode := bestm;
        code := EmitInteger(bestd);
      }
      Update(addr);
    }

    /** xd3_decode_address on the bytes of `input` from `pos` on. */
    method Decode(here: nat, mode: nat, input: seq<byte>, pos: nat) returns (ok: bool, addr: nat, used: nat)
      requires Valid() && mode < MODES && pos <= |input|
      modifies this, nearArray, sameArray
      ensures Valid()
      ensures !ok ==> State() == old(State()) &&
                      DecodeAddress(old(State()), here, mode, input[pos..]) == BadAddress
      ensures ok ==> pos <= used <= |input| && addr < TWO64 && State() == old(State()).Update(addr) &&
                     DecodeAddress(old(State()), here, mode, input[pos..]) == Address(addr, input[used..])
    {
      ok, addr, used := false, 0, pos;
      var sameStart := 2 + nearArray.Length;
      if mode < sameStart {
        var got, v, n := ReadIntegerLoop(input[pos..], TWO64);
        if !got {
          return;
        }
        ReadFromConsumes(0, input[pos..], TWO64);
        used := pos + n;
        assert input[pos..][n..] == input[used..];
        if mode == VCD_SELF {
          addr := v;
        } else if mode == VCD_HERE {
          addr := (here - v) % TWO64;
        } else {
          addr := (v + nearArray[mode - 2]) % TWO64;
        }
      } else {
        if pos == |input| {
          return;
        }
        addr := sameArray[256 * (mode - sameStart) + input[pos]];
        used := pos + 1;
      }
      ok := true;
      Update(addr);
    }
  }
}
