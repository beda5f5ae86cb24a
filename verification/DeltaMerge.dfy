/**
 Composing two whole-file deltas without their data (xdelta3-merge.h): `source` makes a file from
 the original, `input` makes the final file from that one, and the merged delta makes the final
 file directly from the original.
 */
module DeltaMerge {
  import opened Bytes
  import opened WholeDelta

  /** The final file, for an original. */
  ghost function Final(d1: Delta, d2: Delta, src: seq<byte>): seq<byte>
    requires WellFormed(d1, |src|) && WellFormed(d2, d1.length)
  {
    Apply(d2, Apply(d1, src))
  }

  /** The two deltas and the size of the original, as a merge needs them. */
  ghost predicate Chain(d1: Delta, d2: Delta, n: nat) {
    WellFormed(d1, n) && WellFormed(d2, d1.length)
  }

  /** For every original, an instruction with its adds is right about the final file. */
  ghost predicate Faithful(w: WInst, adds: seq<byte>, d1: Delta, d2: Delta, n: nat)
    requires Chain(d1, d2, n)
  {
    InstOk(w, adds, n) && forall src: seq<byte> :: |src| == n ==> Explains(w, adds, src, Final(d1, d2, src))
  }

  /** For every original, `size` bytes of the final file from `position` on are those of the
      intermediate file from `addr` on. */
  ghost predicate Repeats(position: nat, addr: nat, size: nat, d1: Delta, d2: Delta, n: nat)
    requires Chain(d1, d2, n)
  {
    && position + size <= d2.length && addr + size <= d1.length
    && forall src: seq<byte>, k: nat :: |src| == n && position <= k < position + size ==>
         Final(d1, d2, src)[k] == Apply(d1, src)[k - position + addr]
  }

  lemma MoreAdds(w: WInst, adds: seq<byte>, more: seq<byte>, d1: Delta, d2: Delta, n: nat)
    requires Chain(d1, d2, n) && Faithful(w, adds, d1, d2, n)
    ensures Faithful(w, adds + more, d1, d2, n)
  {
    forall src: seq<byte> | |src| == n ensures Explains(w, adds + more, src, Final(d1, d2, src)) {
      var out := Final(d1, d2, src);
      assert Explains(w, adds, src, out);
      forall k | w.position <= k < w.End() ensures out[k] == Said(w, adds + more, src, out, k) {
        assert out[k] == Said(w, adds, src, out, k);
      }
    }
  }

  /** An instruction of `input` that does not copy from its source can be taken over, its bytes
      appended to the adds. */
  lemma TakeOver(i: nat, w: WInst, adds: seq<byte>, more: seq<byte>, d1: Delta, d2: Delta, n: nat)
    requires Chain(d1, d2, n) && i < |d2.inst| && !(d2.inst[i].kind == Copy && d2.inst[i].mode == FromSource)
    requires match d2.inst[i].kind
             case Copy => w == d2.inst[i]
             case Run => w == d2.inst[i].(addr := |adds|) && more == [d2.adds[d2.inst[i].addr]]
             case Add => w == d2.inst[i].(addr := |adds|) && more == d2.adds[d2.inst[i].addr..d2.inst[i].addr + w.size]
    ensures Faithful(w, adds + more, d1, d2, n)
  {
    var o := d2.inst[i];
    forall src: seq<byte> | |src| == n ensures Explains(w, adds + more, src, Final(d1, d2, src)) {
      var out := Final(d1, d2, src);
      ApplyExplains(d2, Apply(d1, src), i);
      forall k | w.position <= k < w.End() ensures out[k] == Said(w, adds + more, src, out, k) {
        assert out[k] == Said(o, d2.adds, Apply(d1, src), out, k);
      }
    }
  }

  lemma SourceCopyRepeats(i: nat, d1: Delta, d2: Delta, n: nat)
    requires Chain(d1, d2, n) && i < |d2.inst| && d2.inst[i].kind == Copy && d2.inst[i].mode == FromSource
    ensures Repeats(d2.inst[i].position, d2.inst[i].addr, d2.inst[i].size, d1, d2, n)
  {
    hide Apply, Before;
    var o := d2.inst[i];
    PositionsGrow(d2.inst, d2.length, i, i);
    forall src: seq<byte>, k: nat | |src| == n && o.position <= k < o.End()
      ensures Final(d1, d2, src)[k] == Apply(d1, src)[k - o.position + o.addr]
    {
      ApplyExplains(d2, Apply(d1, src), i);
      assert Final(d1, d2, src)[k] == Said(o, d2.adds, Apply(d1, src), Final(d1, d2, src), k);
    }
  }

  /** A stretch of the intermediate file that lies in instruction `j` of `source`, and the piece of
      that instruction that stands for it in the merged delta. */
  lemma Piece(j: nat, w: WInst, addr: nat, adds: seq<byte>, more: seq<byte>, d1: Delta, d2: Delta, n: nat)
    requires Chain(d1, d2, n) && j < |d1.inst| && !(d1.inst[j].kind == Copy && d1.inst[j].mode == FromTarget)
    requires d1.inst[j].position <= addr && addr + w.size <= d1.inst[j].End() && w.size > 0
    requires Repeats(w.position, addr, w.size, d1, d2, n) && w.kind == d1.inst[j].kind
    requires var off := addr - d1.inst[j].position;
             match w.kind
             case Copy => w.mode == FromSource && w.addr == d1.inst[j].addr + off
             case Run => w.addr == |adds| && more == [d1.adds[d1.inst[j].addr]]
             case Add => w.addr == |adds| && more == d1.adds[d1.inst[j].addr + off..d1.inst[j].addr + off + w.size]
    ensures Faithful(w, adds + more, d1, d2, n)
  {
    hide WellFormed, Repeats, Faithful, Explains, Final, Stands, InstOk;
    PieceStands(j, d1.inst[j], w, addr, adds, more, d1, d2, n);
    forall src: seq<byte> | |src| == n ensures Explains(w, adds + more, src, Final(d1, d2, src)) {
      PieceFor(j, w, addr, adds + more, d1, d2, n, src);
    }
    FaithfulFor(w, adds + more, d1, d2, n);
  }

  /** The instruction stands for the bytes that `o` has from `addr` on. */
  ghost predicate Stands(o: WInst, w: WInst, addr: nat, oadds: seq<byte>, adds: seq<byte>) {
    && o.position <= addr && addr + w.size <= o.End() && w.kind == o.kind
    && var off := addr - o.position;
       match w.kind
       case Copy => o.mode == FromSource == w.mode && w.addr == o.addr + off
       case Run => o.addr < |oadds| && w.addr < |adds| && adds[w.addr] == oadds[o.addr]
       case Add => o.addr + off + w.size <= |oadds| && w.addr + w.size <= |adds|
                   && adds[w.addr..w.addr + w.size] == oadds[o.addr + off..o.addr + off + w.size]
  }

  lemma PieceStands(j: nat, o: WInst, w: WInst, addr: nat, adds: seq<byte>, more: seq<byte>, d1: Delta, d2: Delta,
                    n: nat)
    requires Chain(d1, d2, n) && j < |d1.inst| && o == d1.inst[j] && !(o.kind == Copy && o.mode == FromTarget)
    requires o.position <= addr && addr + w.size <= o.End() && w.size > 0 && w.kind == o.kind
    requires var off := addr - o.position;
             match w.kind
             case Copy => w.mode == FromSource && w.addr == o.addr + off
             case Run => w.addr == |adds| && more == [d1.adds[o.addr]]
             case Add => w.addr == |adds| && more == d1.adds[o.addr + off..o.addr + off + w.size]
    ensures Stands(o, w, addr, d1.adds, adds + more) && InstOk(w, adds + more, n)
  {
  }

  lemma FaithfulFor(w: WInst, adds: seq<byte>, d1: Delta, d2: Delta, n: nat)
    requires Chain(d1, d2, n) && InstOk(w, adds, n)
    requires forall src: seq<byte> :: |src| == n ==> Explains(w, adds, src, Final(d1, d2, src))
    ensures Faithful(w, adds, d1, d2, n)
  {
  }

  lemma PieceFor(j: nat, w: WInst, addr: nat, adds: seq<byte>, d1: Delta, d2: Delta, n: nat, src: seq<byte>)
    requires Chain(d1, d2, n) && j < |d1.inst| && InstOk(w, adds, n) && |src| == n
    requires Stands(d1.inst[j], w, addr, d1.adds, adds) && Repeats(w.position, addr, w.size, d1, d2, n)
    ensures Explains(w, adds, src, Final(d1, d2, src))
  {
    hide Apply, Final, Repeats, Stands, Explains, InstOk;
    ApplyExplains(d1, src, j);
    RepeatsFor(w.position, addr, w.size, d1, d2, n, src);
    PieceSays(d1.inst[j], w, addr, d1.adds, adds, src, Apply(d1, src), Final(d1, d2, src));
  }

  lemma RepeatsFor(position: nat, addr: nat, size: nat, d1: Delta, d2: Delta, n: nat, src: seq<byte>)
    requires Chain(d1, d2, n) && Repeats(position, addr, size, d1, d2, n) && |src| == n
    ensures position + size <= |Final(d1, d2, src)| && addr + size <= |Apply(d1, src)|
    ensures forall k :: position <= k < position + size ==> Final(d1, d2, src)[k] == Apply(d1, src)[k - position + addr]
  {
    hide Apply, Before, InstOk;
  }

  lemma PieceSays(o: WInst, w: WInst, addr: nat, oadds: seq<byte>, adds: seq<byte>, src: seq<byte>, mid: seq<byte>,
                  out: seq<byte>)
    requires Explains(o, oadds, src, mid) && InstOk(w, adds, |src|) && w.End() <= |out|
    requires Stands(o, w, addr, oadds, adds)
    requires addr + w.size <= |mid| && forall k :: w.position <= k < w.End() ==> out[k] == mid[k - w.position + addr]
    ensures Explains(w, adds, src, out)
  {
    forall k | w.position <= k < w.End() ensures out[k] == Said(w, adds, src, out, k) {
      var m := k - w.position + addr;
      assert mid[m] == Said(o, oadds, src, mid, m);
      if w.kind == Add {
        assert adds[w.addr..w.addr + w.size][k - w.position] == adds[k - w.position + w.addr];
      }
    }
  }

  /** A copy within the intermediate file: follow it to where it copies from. */
  lemma Follow(j: nat, position: nat, addr: nat, size: nat, d1: Delta, d2: Delta, n: nat)
    requires Chain(d1, d2, n) && j < |d1.inst| && d1.inst[j].kind == Copy && d1.inst[j].mode == FromTarget
    requires d1.inst[j].position <= addr && addr + size <= d1.inst[j].End()
    requires Repeats(position, addr, size, d1, d2, n)
    ensures Repeats(position, d1.inst[j].addr + (addr - d1.inst[j].position), size, d1, d2, n)
  {
    hide Apply, Before;
    var o := d1.inst[j];
    var from := o.addr + (addr - o.position);
    forall src: seq<byte>, k: nat | |src| == n && position <= k < position + size
      ensures Final(d1, d2, src)[k] == Apply(d1, src)[k - position + from]
    {
      var mid := Apply(d1, src);
      var m := k - position + addr;
      ApplyExplains(d1, src, j);
      assert mid[m] == Said(o, d1.adds, src, mid, m);
    }
  }

  lemma RepeatsPart(position: nat, addr: nat, size: nat, a: nat, b: nat, d1: Delta, d2: Delta, n: nat)
    requires Chain(d1, d2, n) && Repeats(position, addr, size, d1, d2, n) && a <= b <= size
    ensures Repeats(position + a, addr + a, b - a, d1, d2, n)
  {
    forall src: seq<byte>, k: nat | |src| == n && position + a <= k < position + b
      ensures Final(d1, d2, src)[k] == Apply(d1, src)[k - (position + a) + (addr + a)]
    {
      assert k - (position + a) + (addr + a) == k - position + addr;
    }
  }

  // ----- the merged delta under construction

  /** What has been merged so far covers the final file up to `end`. */
  ghost predicate Building(inst: seq<WInst>, adds: seq<byte>, end: nat, d1: Delta, d2: Delta, n: nat)
    requires Chain(d1, d2, n)
  {
    Contiguous(inst, end) && forall i :: 0 <= i < |inst| ==> Faithful(inst[i], adds, d1, d2, n)
  }

  lemma BuildOn(inst: seq<WInst>, adds: seq<byte>, end: nat, w: WInst, more: seq<byte>, d1: Delta, d2: Delta, n: nat)
    requires Chain(d1, d2, n) && Building(inst, adds, end, d1, d2, n)
    requires w.position == end && w.size > 0 && Faithful(w, adds + more, d1, d2, n)
    ensures Building(inst + [w], adds + more, w.End(), d1, d2, n)
  {
    hide Faithful;
    var inst' := inst + [w];
    forall i | 0 <= i < |inst'| ensures Faithful(inst'[i], adds + more, d1, d2, n) {
      if i < |inst| {
        MoreAdds(inst[i], adds, more, d1, d2, n);
      }
    }
  }

  /** The composition theorem: a finished construction is well formed for the original, and
      applying it is applying one delta after the other. */
  lemma BuiltComposes(d: Delta, d1: Delta, d2: Delta, n: nat)
    requires Chain(d1, d2, n) && Building(d.inst, d.adds, d.length, d1, d2, n) && d.length == d2.length
    ensures WellFormed(d, n)
    ensures forall src: seq<byte> :: |src| == n ==> Apply(d, src) == Apply(d2, Apply(d1, src))
  {
    forall src: seq<byte> | |src| == n ensures Apply(d, src) == Apply(d2, Apply(d1, src)) {
      ExplainedIsApply(d, src, Final(d1, d2, src));
    }
  }

  // ----- the merging code

  /** What holds of every delta put together from windows: gapless instructions, adds that are there,
      and target copies that start before themselves. */
  ghost predicate Mergeable(d2: Delta) {
    && Contiguous(d2.inst, d2.length)
    && forall i :: 0 <= i < |d2.inst| ==> Trusted(d2.inst[i], d2.adds)
  }

  ghost predicate Trusted(w: WInst, adds: seq<byte>) {
    match w.kind
    case Add => w.addr + w.size <= |adds|
    case Run => w.addr < |adds|
    case Copy => w.mode == FromTarget ==> w.addr < w.position
  }

  /** How merging ends.  `PastEnd`: a copy that starts inside the intermediate file runs past its end,
      and the loop would read behind the array of instructions; the code has only an assertion there. */
  datatype Merging = Merged | Refused(error: Error) | PastEnd

  /** What becomes of one instruction. */
  function Outcome(w: WInst, midlen: nat): Merging {
    if w.kind != Copy || w.mode == FromTarget then Merged
    else if w.mode == FromOtherTarget || w.addr >= midlen then Refused(InvalidInput)
    else if w.addr + w.size > midlen then PastEnd
    else Merged
  }

  /** The first instruction that cannot be merged decides. */
  function Verdict(inst: seq<WInst>, midlen: nat): Merging {
    if inst == [] then Merged
    else
      var before := Verdict(inst[..|inst| - 1], midlen);
      if before == Merged then Outcome(inst[|inst| - 1], midlen) else before
  }

  lemma {:induction false} VerdictKept(inst: seq<WInst>, midlen: nat, n: nat)
    requires n <= |inst| && Verdict(inst[..n], midlen) != Merged
    ensures Verdict(inst, midlen) == Verdict(inst[..n], midlen)
    decreases |inst|
  {
    if n == |inst| {
      assert inst[..n] == inst;
    } else {
      assert inst[..|inst| - 1][..n] == inst[..n];
      VerdictKept(inst[..|inst| - 1], midlen, n);
    }
  }

  lemma {:induction false} VerdictMerged(inst: seq<WInst>, midlen: nat)
    ensures Verdict(inst, midlen) == Merged <==> forall i :: 0 <= i < |inst| ==> Outcome(inst[i], midlen) == Merged
    decreases |inst|
  {
    if inst != [] {
      VerdictMerged(inst[..|inst| - 1], midlen);
    }
  }

  /** The merge goes through exactly when the second delta is well formed for the file that the first
      one makes. */
  lemma MergedIsWellFormed(d2: Delta, midlen: nat)
    requires Mergeable(d2)
    ensures Verdict(d2.inst, midlen) == Merged <==> WellFormed(d2, midlen)
  {
    hide Verdict;
    VerdictMerged(d2.inst, midlen);
    forall i | 0 <= i < |d2.inst|
      ensures Outcome(d2.inst[i], midlen) == Merged <==> InstOk(d2.inst[i], d2.adds, midlen)
    {
      assert Trusted(d2.inst[i], d2.adds) && d2.inst[i].size > 0;
    }
  }

  /** A copy of four bytes from the middle of a file of four: the walk leaves the instructions. */
  lemma CopyPastEnd()
    ensures var d1 := Delta([1, 2, 3, 4], [WInst(Add, FromTarget, 4, 0, 0)], [], 4);
            var d2 := Delta([], [WInst(Copy, FromSource, 4, 2, 0)], [], 4);
            WellFormed(d1, 0) && Mergeable(d2) && Verdict(d2.inst, d1.length) == PastEnd
  {
    var w := WInst(Copy, FromSource, 4, 2, 0);
    assert [w][..0] == [];
  }

  class WholeState {
    var adds: seq<byte>
    var inst: seq<WInst>
    var wininfo: seq<WinInfo>
    var length: nat

    /** xd3_whole_state_init. */
    constructor ()
      ensures State() == Delta([], [], [], 0)
    {
      adds, inst, wininfo, length := [], [], [], 0;
    }

    function State(): Delta
      reads this
    {
      Delta(adds, inst, wininfo, length)
    }

    /** xd3_merge_find_position: binary search for the instruction that covers an address. */
    method FindPosition(address: nat) returns (r: Result<nat>)
      requires Contiguous(inst, length)
      ensures r.Ok? <==> address < length
      ensures r.Ok? ==> r.value < |inst| && inst[r.value].position <= address < inst[r.value].End()
      ensures r.Err? ==> r.error == InvalidInput
    {
      if address >= length {
        return Err(InvalidInput);
      }
      var low, high := 0, |inst|;
      while low != high
        invariant 0 <= low <= high <= |inst|
        invariant low > 0 ==> inst[low - 1].End() <= address
        invariant high < |inst| ==> address < inst[high].position
        decreases high - low
      {
        var mid := low + (high - low) / 2;
        if address < inst[mid].position {
          high := mid;
          continue;
        }
        if address >= inst[mid].End() {
          low := mid + 1;
          continue;
        }
        return Ok(mid);
      }
      // Internal error in merge: instructions without gaps leave no such address
      assert false;
      r := Err(Internal);
    }

    /** xd3_merge_run, xd3_merge_add and xd3_merge_target_copy on instruction `i` of `input`. */
    method TakeOverInst(input: WholeState, i: nat, ghost d1: Delta, ghost n: nat)
      requires this != input && i < |input.inst|
      requires Trusted(input.inst[i], input.adds)
      requires input.inst[i].kind == Copy ==> input.inst[i].mode == FromTarget
      modifies this`adds, this`inst
      ensures Chain(d1, input.State(), n) && old(Building(inst, adds, input.inst[i].position, d1, input.State(), n)) ==>
                Building(inst, adds, input.inst[i].End(), d1, input.State(), n)
    {
      ghost var adds0, inst0 := adds, inst;
      var iinst := input.inst[i];
      var oinst := iinst;
      ghost var more: seq<byte> := [];
      match iinst.kind {
      case Run =>
        oinst := oinst.(addr := |adds|);
        adds := adds + [input.adds[iinst.addr]];
        more := [input.adds[iinst.addr]];
      case Add =>
        oinst := oinst.(addr := |adds|);
        adds := adds + input.adds[iinst.addr..iinst.addr + iinst.size];
        more := input.adds[iinst.addr..iinst.addr + iinst.size];
      case Copy =>
        assert adds0 + more == adds0;
      }
      inst := inst + [oinst];
      if Chain(d1, input.State(), n) && Building(inst0, adds0, iinst.position, d1, input.State(), n) {
        TakeOver(i, oinst, adds0, more, d1, input.State(), n);
        BuildOn(inst0, adds0, iinst.position, oinst, more, d1, input.State(), n);
      }
    }

    /** The construction is right so far, and the stretch to be copied next is what it should be. */
    ghost predicate Ready(source: Delta, addr: nat, size: nat, position: nat, d2: Delta, n: nat)
      reads this
    {
      Chain(source, d2, n) && Building(inst, adds, position, source, d2, n)
        && Repeats(position, addr, size, source, d2, n)
    }

    /** One piece of a source copy: the part of instruction `j` from `addr` on, `take` bytes of it. */
    method AppendPiece(source: WholeState, j: nat, addr: nat, take: nat, position: nat, ghost d2: Delta, ghost n: nat)
      requires this != source && j < |source.inst| && WellFormed(source.State(), n)
      requires !(source.inst[j].kind == Copy && source.inst[j].mode == FromTarget) && 0 < take
      requires source.inst[j].position <= addr && addr + take <= source.inst[j].End()
      modifies this`adds, this`inst
      ensures old(Ready(source.State(), addr, take, position, d2, n)) ==>
                Building(inst, adds, position + take, source.State(), d2, n)
    {
      ghost var adds0, inst0 := adds, inst;
      var sinst := source.inst[j];
      assert InstOk(sinst, source.adds, n);
      var off := addr - sinst.position;
      var minst := WInst(sinst.kind, FromTarget, take, 0, position);
      ghost var more: seq<byte> := [];
      match sinst.kind {
      case Run =>
        minst := minst.(addr := |adds|);
        adds := adds + [source.adds[sinst.addr]];
        more := [source.adds[sinst.addr]];
      case Add =>
        minst := minst.(addr := |adds|);
        adds := adds + source.adds[sinst.addr + off..sinst.addr + off + take];
        more := source.adds[sinst.addr + off..sinst.addr + off + take];
      case Copy =>
        minst := minst.(mode := sinst.mode, addr := sinst.addr + off);
        assert adds0 + more == adds0;
      }
      inst := inst + [minst];
      if old(Ready(source.State(), addr, take, position, d2, n)) {
        Piece(j, minst, addr, adds0, more, source.State(), d2, n);
        BuildOn(inst0, adds0, position, minst, more, source.State(), d2, n);
      }
    }

    /** xd3_merge_source_copy: `size0` bytes of the file `source` makes, from `addr0` on, cut at the
        instructions that made them.  A copy within that file is followed recursively; it ends
        before the place it is followed from, so this terminates. */
    method MergeSourceCopy(source: WholeState, addr0: nat, size0: nat, position0: nat, ghost d2: Delta, ghost n: nat)
        returns (ret: Merging)
      requires this != source && WellFormed(source.State(), n) && 0 < size0
      modifies this`adds, this`inst
      ensures ret == if addr0 >= source.length then Refused(InvalidInput)
                     else if addr0 + size0 > source.length then PastEnd else Merged
      ensures ret == Merged && old(Ready(source.State(), addr0, size0, position0, d2, n)) ==>
                Building(inst, adds, position0 + size0, source.State(), d2, n)
      decreases addr0 + size0
    {
      hide Faithful, Repeats, Building;
      ghost var good := Ready(source.State(), addr0, size0, position0, d2, n);
      ghost var d1 := source.State();
      var found := source.FindPosition(addr0);
      if found.Err? {
        return Refused(found.error);
      }
      var num: nat := found.value;
      var addr: nat, size: nat, position: nat := addr0, size0, position0;
      while size > 0
        invariant addr + size == addr0 + size0 && position + size == position0 + size0 && addr >= addr0
        invariant good ==> Building(inst, adds, position, d1, d2, n)
        invariant addr <= source.length
        invariant size > 0 ==> if num < |source.inst| then source.inst[num].position <= addr < source.inst[num].End()
                               else addr == source.length
        decreases size
      {
        if num >= |source.inst| {
          return PastEnd;
        }
        var sinst := source.inst[num];
        var left := sinst.size - (addr - sinst.position);
        var take := Min(size, left);
        if good {
          RepeatsPart(position0, addr0, size0, addr - addr0, addr - addr0 + take, d1, d2, n);
        }
        if sinst.kind == Copy && sinst.mode == FromTarget {
          FollowOk(d1, num, n);
          if good {
            Follow(num, position, addr, take, d1, d2, n);
          }
          ret := MergeSourceCopy(source, sinst.addr + (addr - sinst.position), take, position, d2, n);
          if ret != Merged {
            return;
          }
        } else {
          AppendPiece(source, num, addr, take, position, d2, n);
        }
        NextInst(d1, num, addr, take);
        position := position + take;
        addr := addr + take;
        size := size - take;
        num := num + 1;
      }
      ret := Merged;
    }

    lemma FollowOk(d: Delta, j: nat, n: nat)
      requires WellFormed(d, n) && j < |d.inst| && d.inst[j].kind == Copy && d.inst[j].mode == FromTarget
      ensures d.inst[j].addr < d.inst[j].position && d.inst[j].End() <= d.length
    {
      assert InstOk(d.inst[j], d.adds, n);
      PositionsGrow(d.inst, d.length, j, j);
    }

    /** Past the end of an instruction comes the start of the next, unless the file ends there. */
    lemma NextInst(d: Delta, j: nat, addr: nat, take: nat)
      requires Contiguous(d.inst, d.length) && j < |d.inst| && addr + take <= d.inst[j].End()
      ensures addr + take <= d.length
      ensures addr + take == d.inst[j].End() ==>
                if j + 1 < |d.inst| then d.inst[j + 1].position == addr + take < d.inst[j + 1].End()
                else addr + take == d.length
    {
      PositionsGrow(d.inst, d.length, j, j);
      if j + 1 < |d.inst| {
        assert d.inst[j].End() == d.inst[j + 1].position;
      }
    }

    /** xd3_merge_inputs: the merge goes through exactly when the second delta is well formed for the
        file that the first one makes, and otherwise ends as its first bad copy says.  The merged delta
        then does in one step what the two do in two, for every original. */
    method MergeInputs(source: WholeState, input: WholeState, ghost n: nat) returns (ret: Merging)
      requires this != source && this != input && State() == Delta([], [], [], 0)
      requires WellFormed(source.State(), n) && Mergeable(input.State())
      modifies this
      ensures ret == Verdict(input.inst, source.length)
      ensures ret == Merged <==> WellFormed(input.State(), source.length)
      ensures ret == Merged ==> WellFormed(State(), n) && length == input.length && wininfo == input.wininfo
      ensures ret == Merged ==> forall src: seq<byte> :: |src| == n ==>
                Apply(State(), src) == Apply(input.State(), Apply(source.State(), src))
    {
      hide Faithful, Repeats, Apply, Explains, Outcome, Building;
      ghost var d1, d2 := source.State(), input.State();
      MergedIsWellFormed(d2, d1.length);
      for i := 0 to |input.wininfo|
        invariant wininfo == input.wininfo[..i]
        invariant inst == [] && adds == [] && length == 0
      {
        wininfo := wininfo + [input.wininfo[i]];
      }
      ret := Merged;
      var inputI := 0;
      assert d2.inst[..0] == [];
      if Chain(d1, d2, n) {
        BuildingStarts(d1, d2, n);
      }
      while ret == Merged && inputI < |input.inst|
        invariant inputI <= |input.inst| && wininfo == input.wininfo
        invariant ret == Verdict(d2.inst[..inputI], d1.length)
        invariant ret == Merged ==> length == Before(input.inst, inputI)
        invariant ret == Merged && Chain(d1, d2, n) ==> Building(inst, adds, length, d1, d2, n)
        decreases |input.inst| - inputI
      {
        VerdictStep(d2.inst, inputI, d1.length);
        PositionIsLength(d2, inputI);
        ret := MergeInst(source, input, inputI, n);
        length := length + input.inst[inputI].size;
        inputI := inputI + 1;
      }
      if ret == Merged {
        assert d2.inst[..inputI] == d2.inst;
        BuiltComposes(State(), d1, d2, n);
      } else {
        VerdictKept(d2.inst, d1.length, inputI);
      }
    }

    lemma BuildingStarts(d1: Delta, d2: Delta, n: nat)
      requires Chain(d1, d2, n)
      ensures Building([], [], 0, d1, d2, n)
    {
    }

    lemma VerdictStep(s: seq<WInst>, i: nat, midlen: nat)
      requires i < |s| && Verdict(s[..i], midlen) == Merged
      ensures Verdict(s[..i + 1], midlen) == Outcome(s[i], midlen)
    {
      assert s[..i + 1][..i] == s[..i];
    }

    lemma PositionIsLength(d: Delta, i: nat)
      requires Contiguous(d.inst, d.length) && i < |d.inst|
      ensures d.inst[i].position == Before(d.inst, i) && Before(d.inst, i + 1) == d.inst[i].End()
    {
      if i > 0 {
        assert d.inst[i - 1].End() == d.inst[i].position;
      }
    }

    /** One turn of the loop over the instructions of `input`. */
    method MergeInst(source: WholeState, input: WholeState, i: nat, ghost n: nat) returns (ret: Merging)
      requires this != source && this != input && i < |input.inst|
      requires WellFormed(source.State(), n) && Mergeable(input.State())
      modifies this`adds, this`inst
      ensures ret == Outcome(input.inst[i], source.length)
      ensures ret == Merged && Chain(source.State(), input.State(), n) &&
              old(Building(inst, adds, input.inst[i].position, source.State(), input.State(), n)) ==>
                Building(inst, adds, input.inst[i].End(), source.State(), input.State(), n)
    {
      hide Faithful, Repeats, Building;
      var iinst := input.inst[i];
      assert Trusted(iinst, input.adds) && iinst.size > 0;
      if iinst.kind != Copy || iinst.mode == FromTarget {
        TakeOverInst(input, i, source.State(), n);
        ret := Merged;
      } else if iinst.mode == FromOtherTarget {
        ret := Refused(InvalidInput);
      } else {
        if Chain(source.State(), input.State(), n) {
          SourceCopyRepeats(i, source.State(), input.State(), n);
        }
        ret := MergeSourceCopy(source, iinst.addr, iinst.size, iinst.position, input.State(), n);
      }
    }
  }
}
