/**
 The queue of candidate instructions (`iopt_used`): entries may overlap; a flush first makes
 them disjoint.  The cyclic list is a sequence, the free list a count of its slots.
 */
module InstructionQueue {
  import opened Bytes
  import opened CodeTable

  const MAX_MATCH_SPLIT: nat := 18

  /** `xtra` is the run byte of a RUN, and tells source copies (1) from target copies (0). */
  datatype RInst = RInst(typ: nat, xtra: byte, pos: nat, size: nat, addr: nat) {
    function End(): nat { pos + size }

    /** The copy mode is added to the type only once the address is encoded. */
    predicate IsCandidate() {
      (typ == RUN || typ == CPY) && size >= MIN_MATCH
    }
  }

  /** Starts and ends both strictly increase, though entries may overlap. */
  ghost predicate Increasing(q: seq<RInst>) {
    forall j, k :: 0 <= j < k < |q| ==> q[j].pos < q[k].pos && q[j].End() < q[k].End()
  }

  ghost predicate Candidates(q: seq<RInst>) {
    forall k :: 0 <= k < |q| ==> q[k].IsCandidate()
  }

  /** The first `n` entries and the one after them follow each other without overlap. */
  ghost predicate DisjointUpTo(q: seq<RInst>, n: int) {
    forall k :: 0 <= k < n && k + 1 < |q| ==> q[k].End() <= q[k + 1].pos
  }

  ghost predicate Disjoint(q: seq<RInst>) {
    DisjointUpTo(q, |q|)
  }

  /** `r` is what is left of `o`: a part of its interval, the address shifted equally. */
  ghost predicate PartOf(r: RInst, o: RInst) {
    && r.typ == o.typ && r.xtra == o.xtra
    && o.pos <= r.pos && r.End() <= o.End()
    && r.addr - o.addr == r.pos - o.pos
  }

  ghost predicate AllPartsOf(q: seq<RInst>, o: seq<RInst>) {
    |q| == |o| && forall k :: 0 <= k < |q| ==> PartOf(q[k], o[k])
  }

  /** `o` is a sub-sequence of `full`. */
  ghost predicate Selected(o: seq<RInst>, full: seq<RInst>) {
    if o == [] then true
    else full != [] && ((o[0] == full[0] && Selected(o[1..], full[1..])) || Selected(o, full[1..]))
  }

  lemma {:induction false} SelectedAll(o: seq<RInst>)
    ensures Selected(o, o)
  {
    if o != [] {
      SelectedAll(o[1..]);
    }
  }

  function Without<T>(s: seq<T>, k: nat): seq<T>
    requires k < |s|
  {
    s[..k] + s[k + 1..]
  }

  lemma {:induction false} SelectedWithout(o: seq<RInst>, full: seq<RInst>, k: nat)
    requires k < |o| && Selected(o, full)
    ensures Selected(Without(o, k), full)
    decreases |full|
  {
    var w := Without(o, k);
    if w == [] {
    } else if o[0] == full[0] && Selected(o[1..], full[1..]) {
      if k == 0 {
        assert w == o[1..];
        SelectedSkip(w, full);
      } else {
        SelectedWithout(o[1..], full[1..], k - 1);
        assert w[1..] == Without(o[1..], k - 1);
      }
    } else {
      SelectedWithout(o, full[1..], k);
    }
  }

  lemma SelectedSkip(o: seq<RInst>, full: seq<RInst>)
    requires full != [] && Selected(o, full[1..])
    ensures Selected(o, full)
  {
  }

  lemma {:induction false} SelectedFrom(o: seq<RInst>, full: seq<RInst>, k: nat)
    requires k < |o| && Selected(o, full)
    ensures o[k] in full
    decreases |full|
  {
    if o[0] == full[0] && Selected(o[1..], full[1..]) {
      if k > 0 {
        SelectedFrom(o[1..], full[1..], k - 1);
      }
    } else {
      SelectedFrom(o, full[1..], k);
    }
  }

  lemma {:induction false} SelectedShorter(o: seq<RInst>, full: seq<RInst>)
    requires Selected(o, full)
    ensures |o| <= |full|
    decreases |full|
  {
    if o != [] {
      if o[0] == full[0] && Selected(o[1..], full[1..]) {
        SelectedShorter(o[1..], full[1..]);
      } else {
        SelectedShorter(o, full[1..]);
      }
    }
  }

  /** The outcome of shortening two overlapping neighbours. */
  ghost predicate Balanced(r1: RInst, r2: RInst, s1: RInst, s2: RInst) {
    && PartOf(s1, r1) && PartOf(s2, r2)
    && s1.pos == r1.pos && s2.End() == r2.End()
    && s1.End() == s2.pos
    && s1.IsCandidate() && s2.IsCandidate()
  }

  /** Two candidates overlap, but neither almost entirely. */
  predicate CanCut(r1: RInst, r2: RInst) {
    && r1.IsCandidate() && r2.IsCandidate()
    && r1.pos + 3 <= r2.pos < r1.End() && r1.End() + 3 <= r2.End()
    && r2.End() - r1.pos >= 2 * MIN_MATCH
  }

  /** Two overlapping neighbours cut to meet: where half of what they cover, but no more than
      MAX_MATCH_SPLIT bytes, is the first one's, if neither is too short for that. */
  function Cut(r1: RInst, r2: RInst): (s: (RInst, RInst))
    requires CanCut(r1, r2)
    ensures Balanced(r1, r2, s.0, s.1)
  {
    var overlap := r1.End() - r2.pos;
    var gap := r2.End() - r1.pos;
    var newsize := Min(MAX_MATCH_SPLIT, gap - gap / 2);
    if newsize > r1.size then (r1, Shortened(r2, overlap))
    else if newsize > r2.size then (r1.(size := r1.size - overlap), r2)
    else
      var s1 := r1.(size := Max(newsize, r2.pos - r1.pos));
      (s1, Shortened(r2, s1.End() - r2.pos))
  }

  /** The branch of the compaction that keeps both of two overlapping neighbours. */
  method Balance(r1: RInst, r2: RInst) returns (s1: RInst, s2: RInst)
    requires CanCut(r1, r2)
    ensures (s1, s2) == Cut(r1, r2)
  {
    s1, s2 := r1, r2;
    var r1end := r1.End();
    var gap := r2.End() - r1.pos;
    var average := gap / 2;
    var newsize := Min(MAX_MATCH_SPLIT, gap - average);
    var adjust1;
    if newsize > r1.size {
      adjust1 := r1end - r2.pos;
    } else if newsize > r2.size {
      adjust1 := r1end - r2.pos;
      s1 := s1.(size := r1.size - adjust1);
      adjust1 := 0;
    } else {
      adjust1 := r1.size - newsize;
      if r2.pos > r1end - adjust1 {
        adjust1 := adjust1 - (r2.pos - (r1end - adjust1));
      }
      s1 := s1.(size := r1.size - adjust1);
      adjust1 := s1.End() - r2.pos;
    }
    s2 := s2.(size := r2.size - adjust1, pos := r2.pos + adjust1, addr := r2.addr + adjust1);
  }

  /** The first `n` bytes of an instruction given up. */
  function Shortened(r: RInst, n: nat): RInst
    requires n < r.size
  {
    r.(size := r.size - n, pos := r.pos + n, addr := r.addr + n)
  }

  /** What the compaction keeps while it stands at entry `i`: everything before is settled,
      entry `i` may have lost its front, everything after is untouched. */
  ghost predicate Standing(q: seq<RInst>, kept: seq<RInst>, i: nat) {
    && AllPartsOf(q, kept)
    && Candidates(q) && Increasing(q)
    && DisjointUpTo(q, i)
    && forall k :: i < k < |q| ==> q[k] == kept[k]
  }

  lemma StandingDrop(q: seq<RInst>, kept: seq<RInst>, i: nat, k: nat)
    requires Standing(q, kept, i) && i <= k <= i + 1 && k < |q|
    ensures Standing(Without(q, k), Without(kept, k), i)
  {
    var q' := Without(q, k);
    forall j | 0 <= j < i && j + 1 < |q'| ensures q'[j].End() <= q'[j + 1].pos {
      assert q[j].End() <= q[j + 1].pos;
      assert j + 2 < |q| ==> q[j + 1].pos < q[j + 2].pos;
    }
    forall j | 0 <= j < |q'| ensures PartOf(q'[j], Without(kept, k)[j]) && q'[j].IsCandidate() {
      assert PartOf(q[if j < k then j else j + 1], kept[if j < k then j else j + 1]);
    }
  }

  lemma StandingStart(q: seq<RInst>)
    requires Candidates(q) && Increasing(q)
    ensures Standing(q, q, 0)
  {
  }

  lemma DisjointPair(q: seq<RInst>, i: nat)
    requires i + 1 < |q|
    ensures Disjoint(q) ==> q[i].End() <= q[i + 1].pos
  {
  }

  lemma StandingOverlap(q: seq<RInst>, kept: seq<RInst>, i: nat)
    requires Standing(q, kept, i) && i + 1 < |q|
    ensures q[i].pos < q[i + 1].pos && q[i].End() < q[i + 1].End()
    ensures q[i].IsCandidate() && q[i + 1].IsCandidate()
    ensures |q| == |kept|
  {
  }

  lemma StandingAdvance(q: seq<RInst>, kept: seq<RInst>, i: nat)
    requires Standing(q, kept, i) && i + 1 < |q| && q[i].End() <= q[i + 1].pos
    ensures Standing(q, kept, i + 1)
  {
  }

  lemma StandingBalance(q: seq<RInst>, kept: seq<RInst>, i: nat, s1: RInst, s2: RInst)
    requires Standing(q, kept, i) && i + 1 < |q|
    requires Balanced(q[i], q[i + 1], s1, s2)
    requires i + 2 < |q| ==> q[i + 2].pos > q[i].End() + 1
    ensures Standing(q[i := s1][i + 1 := s2], kept, i + 1)
  {
    hide Increasing, DisjointUpTo;
    BalanceIncreases(q, i, s1, s2);
    BalanceDisjoint(q, i, s1, s2);
    assert PartOf(q[i], kept[i]) && PartOf(q[i + 1], kept[i + 1]);
  }

  lemma BalanceIncreases(q: seq<RInst>, i: nat, s1: RInst, s2: RInst)
    requires Increasing(q) && DisjointUpTo(q, i) && i + 1 < |q|
    requires Balanced(q[i], q[i + 1], s1, s2)
    requires i + 2 < |q| ==> q[i + 2].pos > q[i].End() + 1
    ensures Increasing(q[i := s1][i + 1 := s2])
  {
    var q' := q[i := s1][i + 1 := s2];
    forall j | 0 <= j < |q'| - 1 ensures q'[j].pos < q'[j + 1].pos && q'[j].End() < q'[j + 1].End() {
      assert q[j].pos < q[j + 1].pos && q[j].End() < q[j + 1].End();
      if j == i - 1 {
        assert q[j].End() <= q[j + 1].pos;
      }
    }
    StepsIncrease(q');
  }

  lemma BalanceDisjoint(q: seq<RInst>, i: nat, s1: RInst, s2: RInst)
    requires DisjointUpTo(q, i) && i + 1 < |q|
    requires Balanced(q[i], q[i + 1], s1, s2)
    ensures DisjointUpTo(q[i := s1][i + 1 := s2], i + 1)
  {
    var q' := q[i := s1][i + 1 := s2];
    forall j | 0 <= j < i + 1 && j + 1 < |q'| ensures q'[j].End() <= q'[j + 1].pos {
      if j < i {
        assert q[j].End() <= q[j + 1].pos;
      }
    }
  }

  lemma StepsIncrease(q: seq<RInst>)
    requires forall j :: 0 <= j < |q| - 1 ==> q[j].pos < q[j + 1].pos && q[j].End() < q[j + 1].End()
    ensures Increasing(q)
  {
    forall j, k | 0 <= j < k < |q| ensures q[j].pos < q[k].pos && q[j].End() < q[k].End() {
      StepsIncreaseTo(q, j, k);
    }
  }

  lemma {:induction false} StepsIncreaseTo(q: seq<RInst>, j: nat, k: nat)
    requires forall j :: 0 <= j < |q| - 1 ==> q[j].pos < q[j + 1].pos && q[j].End() < q[j + 1].End()
    requires j < k < |q|
    ensures q[j].pos < q[k].pos && q[j].End() < q[k].End()
    decreases k
  {
    assert q[k - 1].pos < q[k - 1 + 1].pos;
    if j < k - 1 {
      StepsIncreaseTo(q, j, k - 1);
    }
  }

  /** The entries that start before `pos`. */
  function Uncovered(q: seq<RInst>, pos: nat): (r: seq<RInst>)
    ensures r <= q && (r != [] ==> r[|r| - 1].pos < pos)
  {
    if q == [] || q[|q| - 1].pos < pos then q else Uncovered(q[..|q| - 1], pos)
  }

  lemma FrontIncreases(q: seq<RInst>)
    requires Increasing(q) && q != []
    ensures Increasing(q[..|q| - 1]) && (|q| > 1 ==> q[|q| - 2].End() < q[|q| - 1].End())
  {
  }

  /** What a match from `pos` on that ends last covers: the entries that go, and nothing else. */
  lemma {:induction false} UncoveredMeans(q: seq<RInst>, pos: nat, end: nat)
    requires Increasing(q) && (q != [] ==> q[|q| - 1].End() <= end)
    ensures var u := Uncovered(q, pos);
            && (forall k :: |u| <= k < |q| ==> pos <= q[k].pos && q[k].End() <= end)
            && (u != [] ==> u[|u| - 1].End() <= end)
    decreases |q|
  {
    if q != [] {
      FrontIncreases(q);
      hide Increasing;
      if q[|q| - 1].pos >= pos {
        UncoveredMeans(q[..|q| - 1], pos, end);
      }
    }
  }

  ghost predicate SameLast(q: seq<RInst>, full: seq<RInst>) {
    full != [] ==> q != [] && q[|q| - 1] == full[|full| - 1]
  }

  // ----- the compaction as a function of the queue

  /** What the compaction keeps of a queue that is settled up to entry `i`. */
  ghost predicate Sound(q: seq<RInst>, i: nat) {
    Candidates(q) && Increasing(q) && DisjointUpTo(q, i)
  }

  lemma SoundStands(q: seq<RInst>, i: nat)
    ensures Sound(q, i) <==> Standing(q, q, i)
  {
  }

  /** Two overlapping neighbours too close to keep both. */
  predicate TooClose(r1: RInst, r2: RInst) {
    r2.End() - r1.pos < 2 * MIN_MATCH || r2.End() - r1.End() <= 2 || r2.pos - r1.pos <= 2
  }

  lemma StandingSound(q: seq<RInst>, kept: seq<RInst>, i: nat)
    requires Standing(q, kept, i)
    ensures Sound(q, i)
  {
  }

  datatype Turn = Turn(q: seq<RInst>, i: nat, stop: bool)

  /** One turn of the loop at entry `i`. */
  ghost function Turned(q: seq<RInst>, i: nat, force: bool): (t: Turn)
    requires i + 1 < |q| && Sound(q, i)
    ensures Sound(t.q, t.i) && t.i < |t.q| && (t.stop ==> t.q == q) && (!t.stop ==> |t.q| - t.i < |q| - i)
  {
    SoundStands(q, i);
    StandingOverlap(q, q, i);
    if q[i].End() <= q[i + 1].pos then
      StandingAdvance(q, q, i);
      Turn(q, i + 1, false)
    else if i + 2 < |q| && q[i + 2].pos <= q[i].End() + 1 then Dropped(q, i, i + 1, i)
    else if i + 2 == |q| && !force then Turn(q, i, true)
    else if TooClose(q[i], q[i + 1]) then
      if q[i].size < q[i + 1].size then Dropped(q, i, i, i)
      else Dropped(q, i, i + 1, if i + 2 < |q| then i + 1 else i)
    else
      var s := Cut(q[i], q[i + 1]);
      StandingBalance(q, q, i, s.0, s.1);
      assert Sound(q[i := s.0][i + 1 := s.1], i + 1);
      Turn(q[i := s.0][i + 1 := s.1], i + 1, false)
  }

  /** The cases of a turn. */
  lemma TurnedMeans(q: seq<RInst>, i: nat, force: bool)
    requires i + 1 < |q| && Sound(q, i)
    ensures var t, r1, r2 := Turned(q, i, force), q[i], q[i + 1];
            if r1.End() <= r2.pos then t == Turn(q, i + 1, false)
            else if i + 2 < |q| && q[i + 2].pos <= r1.End() + 1 then t == Turn(Without(q, i + 1), i, false)
            else if i + 2 == |q| && !force then t == Turn(q, i, true)
            else if TooClose(r1, r2) then
              if r1.size < r2.size then t == Turn(Without(q, i), i, false)
              else t == Turn(Without(q, i + 1), if i + 2 < |q| then i + 1 else i, false)
            else
              && CanCut(r1, r2)
              && t == Turn(q[i := Cut(r1, r2).0][i + 1 := Cut(r1, r2).1], i + 1, false)
  {
    SoundStands(q, i);
    StandingOverlap(q, q, i);
    hide Sound, Cut;
  }

  /** Unforced, the last entry stays what it is. */
  lemma TurnedKeepsLast(q: seq<RInst>, i: nat)
    requires i + 1 < |q| && Sound(q, i)
    ensures SameLast(Turned(q, i, false).q, q)
  {
    hide Sound, Turned, Cut;
    TurnedMeans(q, i, false);
  }

  /** Entry `k` given up; the loop goes on at entry `next`. */
  ghost function Dropped(q: seq<RInst>, i: nat, k: nat, next: nat): (t: Turn)
    requires Sound(q, i) && i + 1 < |q| && i <= k <= i + 1 && i <= next <= i + 1
    requires next == i + 1 ==> k == i + 1 && i + 2 < |q| && q[i].End() <= q[i + 2].pos
    ensures Sound(t.q, t.i) && t.i < |t.q| && !t.stop && |t.q| == |q| - 1
  {
    SoundStands(q, i);
    StandingDrop(q, q, i, k);
    SoundStands(Without(q, k), i);
    if next == i + 1 then
      StandingAdvance(Without(q, k), Without(q, k), i);
      Turn(Without(q, k), next, false)
    else Turn(Without(q, k), next, false)
  }

  /** The loop from entry `i` on. */
  ghost function CompactedFrom(q: seq<RInst>, i: nat, force: bool): (r: seq<RInst>)
    requires Sound(q, i)
    ensures !force && |q| >= 2 && i < |q| ==> |r| >= 2
    decreases |q| - i
  {
    if i + 1 < |q| then
      var t := Turned(q, i, force);
      if t.stop then t.q else CompactedFrom(t.q, t.i, force)
    else q
  }

  lemma CompactedStep(q: seq<RInst>, i: nat, force: bool)
    requires i + 1 < |q| && Sound(q, i)
    ensures var t := Turned(q, i, force);
            CompactedFrom(q, i, force) == if t.stop then t.q else CompactedFrom(t.q, t.i, force)
  {
    hide Turned;
  }

  lemma CompactionStarts(q: seq<RInst>, force: bool)
    requires Candidates(q) && Increasing(q)
    ensures Sound(q, 0) && CompactedFrom(q, 0, force) == Compacted(q, force) && SameLast(q, q)
  {
  }

  lemma CompactionEnds(q: seq<RInst>, kept: seq<RInst>, i: nat, force: bool, stop: bool)
    requires Standing(q, kept, i) && Sound(q, i) && (if stop then !force && i + 2 == |q| else i + 1 >= |q|)
    ensures AllPartsOf(q, kept) && Candidates(q) && Increasing(q)
    ensures DisjointUpTo(q, if force then |q| else |q| - 2)
    ensures !stop ==> CompactedFrom(q, i, force) == q
  {
  }

  lemma SameLastFollows(q: seq<RInst>, r: seq<RInst>, s: seq<RInst>)
    requires SameLast(q, r) && SameLast(r, s)
    ensures SameLast(q, s)
  {
  }

  /** What the compaction leaves of a queue. */
  ghost function Compacted(q: seq<RInst>, force: bool): (r: seq<RInst>)
    requires Candidates(q) && Increasing(q)
    ensures !force && |q| >= 2 ==> |r| >= 2
  {
    CompactedFrom(q, 0, force)
  }

  /** Two entries that overlap, and no other. */
  predicate Overlaps(q: seq<RInst>) {
    |q| == 2 && q[0].End() > q[1].pos
  }

  /** Entries that all begin inside the first: unforced, the compaction leaves the first and the last,
      and they overlap. */
  lemma {:induction false} AllInsideFirst(q: seq<RInst>)
    requires Candidates(q) && Increasing(q) && |q| >= 2 && q[|q| - 1].pos < q[0].End()
    ensures Compacted(q, false) == [q[0], q[|q| - 1]] && Overlaps(Compacted(q, false))
    decreases |q|
  {
    if |q| == 2 {
      assert q == [q[0], q[1]];
    } else {
      var s := Without(q, 1);
      SoundStands(q, 0);
      StandingDrop(q, q, 0, 1);
      assert q[2].pos <= q[|q| - 1].pos;
      AllInsideFirst(s);
    }
  }

  /** So it happens in a queue of any length: copies of equal size, each one byte after the other. */
  lemma OverlapsAtAnyLength(n: nat)
    requires n >= 2
    ensures var q := Stairs(n);
            Candidates(q) && Increasing(q) && Overlaps(Compacted(q, false))
  {
    AllInsideFirst(Stairs(n));
  }

  function Stairs(n: nat): (q: seq<RInst>)
    ensures |q| == n && forall k :: 0 <= k < n ==> q[k] == RInst(CPY, 1, k, n + MIN_MATCH, k)
  {
    seq(n, k requires 0 <= k < n => RInst(CPY, 1, k, n + MIN_MATCH, k))
  }

  class IoptQueue {
    var used: seq<RInst>
    var free: nat

    constructor (slots: nat)
      ensures used == [] && free == slots
    {
      used, free := [], slots;
    }

    /** xd3_iopt_free on the k-th entry. */
    method Free(k: nat)
      requires k < |used|
      modifies this
      ensures used == Without(old(used), k) && free == old(free) + 1
    {
      used := used[..k] + used[k + 1..];
      free := free + 1;
    }

    /** The first loop of xd3_iopt_flush_instructions.  What is left is a selection of the old
        entries, each cut down to a part of itself of at least MIN_MATCH bytes, in order and
        disjoint; not forced, the last pair may still overlap and the last entry is untouched.
        A queue that is disjoint already is left alone. */
    method Compact(force: bool) returns (ghost kept: seq<RInst>)
      requires Candidates(used) && Increasing(used)
      modifies this
      ensures Selected(kept, old(used)) && AllPartsOf(used, kept)
      ensures Candidates(used) && Increasing(used)
      ensures DisjointUpTo(used, if force then |used| else |used| - 2)
      ensures |used| + free == old(|used| + free)
      ensures old(used) != [] ==> used != []
      ensures used == Compacted(old(used), force)
      ensures Disjoint(old(used)) ==> used == old(used)
      ensures !force ==> SameLast(used, old(used))
    {
      hide *;
      kept := used;
      SelectedAll(used);
      StandingStart(used);
      ghost var full := used;
      StandingSound(used, kept, 0);
      CompactionStarts(used, force);
      var i: nat := 0;
      while i + 1 < |used|
        invariant Selected(kept, full) && Standing(used, kept, i) && Sound(used, i)
        invariant |used| + free == old(|used| + free) && (full != [] ==> i < |used|)
        invariant CompactedFrom(used, i, force) == Compacted(full, force)
        invariant Disjoint(full) ==> used == full
        invariant !force ==> SameLast(used, full)
        decreases |used| - i
      {
        ghost var q := used;
        CompactedStep(used, i, force);
        var stop;
        i, kept, stop := Step(i, force, kept, full);
        if !force { SameLastFollows(used, q, full); }
        if stop {
          CompactionEnds(used, kept, i, force, stop);
          return;
        }
      }
      CompactionEnds(used, kept, i, force, false);
    }

    /** One turn of the loop: look at entries `i`, `i + 1` and, if there is one, `i + 2`. */
    method Step(i: nat, force: bool, ghost kept: seq<RInst>, ghost full: seq<RInst>)
        returns (i': nat, ghost kept': seq<RInst>, stop: bool)
      requires i + 1 < |used|
      requires Selected(kept, full) && Standing(used, kept, i)
      modifies this
      ensures Selected(kept', full) && Standing(used, kept', i') && i' < |used|
      ensures |used| + free == old(|used| + free)
      ensures old(Sound(used, i)) && Turn(used, i', stop) == old(Turned(used, i, force))
      ensures Disjoint(old(used)) ==> used == old(used)
      ensures !force ==> SameLast(used, old(used))
      ensures stop ==> !force && used == old(used) && i' + 2 == |used|
      ensures !stop ==> |used| - i' < old(|used|) - i
    {
      hide Disjoint, Selected, Standing, Sound, Turned, SameLast;
      StandingSound(used, kept, i);
      TurnedMeans(used, i, force);
      TurnedKeepsLast(used, i);
      DisjointPair(used, i);
      i', kept', stop := i, kept, false;
      if used[i].End() <= used[i + 1].pos {
        StandingAdvance(used, kept, i);
        i' := i + 1;
      } else if i + 2 < |used| && used[i + 2].pos <= used[i].End() + 1 {
        kept' := Drop(kept, i, i + 1, full);
      } else if i + 2 == |used| && !force {
        stop := true;
      } else {
        i', kept' := Resolve(i, kept, full);
      }
    }

    /** Entries `i` and `i + 1` overlap and the one after, if any, is clear of entry `i`. */
    method Resolve(i: nat, ghost kept: seq<RInst>, ghost full: seq<RInst>) returns (i': nat, ghost kept': seq<RInst>)
      requires i + 1 < |used| && used[i].End() > used[i + 1].pos
      requires i + 2 < |used| ==> used[i + 2].pos > used[i].End() + 1
      requires Selected(kept, full) && Standing(used, kept, i)
      modifies this
      ensures Selected(kept', full) && Standing(used, kept', i') && i' < |used|
      ensures |used| + free == old(|used| + free)
      ensures var q := old(used);
              if TooClose(q[i], q[i + 1]) then
                if q[i].size < q[i + 1].size then used == Without(q, i) && i' == i
                else used == Without(q, i + 1) && i' == if i + 2 < |q| then i + 1 else i
              else
                && CanCut(q[i], q[i + 1]) && i' == i + 1
                && used == q[i := Cut(q[i], q[i + 1]).0][i + 1 := Cut(q[i], q[i + 1]).1]
    {
      hide Standing, Selected, Balanced, Cut;
      StandingOverlap(used, kept, i);
      i', kept' := i, kept;
      var r1, r2 := used[i], used[i + 1];
      var r2off := r2.pos - r1.pos;
      var r2moff := r2.End() - r1.End();
      var gap := r2.End() - r1.pos;
      if gap < 2 * MIN_MATCH || r2moff <= 2 || r2off <= 2 {
        i', kept' := DiscardShorter(i, kept, full);
      } else {
        var s1, s2 := Balance(r1, r2);
        StandingBalance(used, kept, i, s1, s2);
        used := used[i := s1][i + 1 := s2];
        i' := i + 1;
      }
    }

    /** Only the longer of entries `i` and `i + 1` stays. */
    method DiscardShorter(i: nat, ghost kept: seq<RInst>, ghost full: seq<RInst>)
      returns (i': nat, ghost kept': seq<RInst>)
      requires i + 1 < |used|
      requires i + 2 < |used| ==> used[i + 2].pos > used[i].End() + 1
      requires Selected(kept, full) && Standing(used, kept, i)
      modifies this
      ensures Selected(kept', full) && Standing(used, kept', i') && i' < |used|
      ensures |used| + free == old(|used| + free)
      ensures |used| - i' < old(|used|) - i
      ensures var q := old(used);
              if q[i].size < q[i + 1].size then used == Without(q, i) && i' == i
              else used == Without(q, i + 1) && i' == if i + 2 < |q| then i + 1 else i
    {
      hide Standing, Selected;
      i' := i;
      if used[i].size < used[i + 1].size {
        kept' := Drop(kept, i, i, full);
      } else {
        kept' := Drop(kept, i, i + 1, full);
        if i + 1 < |used| {
          StandingAdvance(used, kept', i);
          i' := i + 1;
        }
      }
    }

    /** One entry given up; the rest of the queue stays what it was. */
    method Drop(ghost kept: seq<RInst>, ghost i: nat, k: nat, ghost full: seq<RInst>) returns (ghost kept': seq<RInst>)
      requires k < |used| && i <= k <= i + 1
      requires Selected(kept, full) && Standing(used, kept, i)
      modifies this
      ensures used == Without(old(used), k) && free == old(free) + 1
      ensures Selected(kept', full) && Standing(used, kept', i)
    {
      SelectedWithout(kept, full, k);
      StandingDrop(used, kept, i, k);
      kept' := Without(kept, k);
      Free(k);
    }
  }
}
