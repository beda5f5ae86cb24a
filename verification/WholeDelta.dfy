/**
 Whole-file deltas (`xd3_whole_state`): instructions with absolute positions, and what they mean
 byte by byte (section 3 of RFC 3284).
 */
module WholeDelta {
  import opened Bytes
  import opened OverlapCopy

  datatype Kind = Add | Run | Copy

  /** `xd3_winst.mode`: 0, VCD_SOURCE or VCD_TARGET. */
  datatype Mode = FromTarget | FromSource | FromOtherTarget

  /** For ADD and RUN, `addr` is an offset in the adds; for a copy, an absolute offset. */
  datatype WInst = WInst(kind: Kind, mode: Mode, size: nat, addr: nat, position: nat) {
    function End(): nat { position + size }
  }

  datatype WinInfo = WinInfo(offset: nat, length: nat, adler32: nat)

  datatype Delta = Delta(adds: seq<byte>, inst: seq<WInst>, wininfo: seq<WinInfo>, length: nat)

  /** Instructions follow each other from 0 to `end` without gaps, none of them empty. */
  ghost predicate Contiguous(inst: seq<WInst>, end: nat) {
    && (forall i :: 0 <= i < |inst| ==> inst[i].size > 0)
    && (inst != [] ==> inst[0].position == 0)
    && (forall i, j :: 0 <= i && j == i + 1 < |inst| ==> inst[j].position == inst[i].End())
    && end == Before(inst, |inst|)
  }

  /** Where the first `n` instructions end. */
  function Before(inst: seq<WInst>, n: nat): nat
    requires n <= |inst|
  {
    if n == 0 then 0 else inst[n - 1].End()
  }

  /** An instruction that can be carried out against a source of `srclen` bytes. */
  ghost predicate InstOk(w: WInst, adds: seq<byte>, srclen: nat) {
    match w.kind
    case Add => w.addr + w.size <= |adds|
    case Run => w.addr < |adds|
    case Copy =>
      && (w.mode == FromSource ==> w.addr + w.size <= srclen)
      && (w.mode == FromTarget ==> w.addr < w.position)
      && w.mode != FromOtherTarget
  }

  ghost predicate WellFormed(d: Delta, srclen: nat) {
    && Contiguous(d.inst, d.length)
    && forall i :: 0 <= i < |d.inst| ==> InstOk(d.inst[i], d.adds, srclen)
  }

  lemma {:induction false} PositionsGrow(inst: seq<WInst>, end: nat, i: nat, j: nat)
    requires Contiguous(inst, end) && i <= j < |inst|
    ensures inst[i].position <= inst[j].position && inst[i].End() <= inst[j].End() <= end
    ensures i < j ==> inst[i].End() <= inst[j].position
    decreases |inst| - i
  {
    if i < j {
      assert inst[i].End() == inst[i + 1].position;
      PositionsGrow(inst, end, i + 1, j);
    } else if j < |inst| - 1 {
      PositionsGrow(inst, end, j + 1, |inst| - 1);
      assert inst[j].End() == inst[j + 1].position;
    }
  }

  // ----- applying a delta, one byte at a time

  function Perform(w: WInst, adds: seq<byte>, src: seq<byte>, out: seq<byte>): (r: seq<byte>)
    requires InstOk(w, adds, |src|) && w.position == |out|
    ensures |r| == |out| + w.size && r[..|out|] == out
  {
    match w.kind
    case Add => out + adds[w.addr..w.addr + w.size]
    case Run => out + seq(w.size, i => adds[w.addr])
    case Copy =>
      if w.mode == FromSource then out + src[w.addr..w.addr + w.size]
      else CopyBytes(out, w.addr, w.size)
  }

  /** The first `n` instructions carried out. */
  function ApplyTo(d: Delta, src: seq<byte>, n: nat): (r: seq<byte>)
    requires WellFormed(d, |src|) && n <= |d.inst|
    ensures |r| == Before(d.inst, n)
  {
    if n == 0 then [] else Perform(d.inst[n - 1], d.adds, src, ApplyTo(d, src, n - 1))
  }

  function Apply(d: Delta, src: seq<byte>): (r: seq<byte>)
    requires WellFormed(d, |src|)
    ensures |r| == d.length
  {
    ApplyTo(d, src, |d.inst|)
  }

  // ----- what a finished file says about each instruction

  /** The bytes of `out` that an instruction covers are the bytes it stands for; a copy within the
      target refers to the finished file, wherever it overlaps itself. */
  ghost predicate Explains(w: WInst, adds: seq<byte>, src: seq<byte>, out: seq<byte>) {
    && InstOk(w, adds, |src|) && w.End() <= |out|
    && forall k :: w.position <= k < w.End() ==> out[k] == Said(w, adds, src, out, k)
  }

  function Said(w: WInst, adds: seq<byte>, src: seq<byte>, out: seq<byte>, k: nat): byte
    requires InstOk(w, adds, |src|) && w.position <= k < w.End() <= |out|
  {
    match w.kind
    case Add => adds[k - w.position + w.addr]
    case Run => adds[w.addr]
    case Copy => if w.mode == FromSource then src[k - w.position + w.addr] else out[k - w.position + w.addr]
  }

  lemma PerformExplains(w: WInst, adds: seq<byte>, src: seq<byte>, out: seq<byte>)
    requires InstOk(w, adds, |src|) && w.position == |out|
    ensures Explains(w, adds, src, Perform(w, adds, src, out))
  {
    var r := Perform(w, adds, src, out);
    if w.kind == Copy && w.mode != FromSource {
      forall k | w.position <= k < w.End() ensures r[k] == Said(w, adds, src, r, k) {
        CopyBytesAt(out, w.addr, w.size, k);
      }
    }
  }

  /** Later instructions leave earlier bytes alone. */
  lemma ExplainsExtended(w: WInst, adds: seq<byte>, src: seq<byte>, out: seq<byte>, longer: seq<byte>)
    requires Explains(w, adds, src, out) && out <= longer
    ensures Explains(w, adds, src, longer)
  {
    forall k | w.position <= k < w.End() ensures longer[k] == Said(w, adds, src, longer, k) {
      assert longer[k] == out[k] == Said(w, adds, src, out, k);
    }
  }

  lemma {:induction false} ApplyToPrefix(d: Delta, src: seq<byte>, n: nat, m: nat)
    requires WellFormed(d, |src|) && n <= m <= |d.inst|
    ensures ApplyTo(d, src, n) <= ApplyTo(d, src, m)
    decreases m
  {
    hide *;
    if n < m {
      ApplyToPrefix(d, src, n, m - 1);
      ApplyToNext(d, src, m);
      PrefixTransitive(ApplyTo(d, src, n), ApplyTo(d, src, m - 1), ApplyTo(d, src, m));
    }
  }

  lemma ApplyToNext(d: Delta, src: seq<byte>, m: nat)
    requires WellFormed(d, |src|) && 0 < m <= |d.inst|
    ensures ApplyTo(d, src, m - 1) <= ApplyTo(d, src, m)
  {
    hide Perform;
    var out := ApplyTo(d, src, m - 1);
    assert ApplyTo(d, src, m)[..|out|] == out;
  }

  lemma PrefixTransitive(a: seq<byte>, b: seq<byte>, c: seq<byte>)
    requires a <= b <= c
    ensures a <= c
  {
  }

  /** The result of applying a delta explains every instruction of it. */
  lemma ApplyExplains(d: Delta, src: seq<byte>, i: nat)
    requires WellFormed(d, |src|) && i < |d.inst|
    ensures Explains(d.inst[i], d.adds, src, Apply(d, src))
  {
    PerformExplains(d.inst[i], d.adds, src, ApplyTo(d, src, i));
    ApplyToPrefix(d, src, i + 1, |d.inst|);
    ExplainsExtended(d.inst[i], d.adds, src, ApplyTo(d, src, i + 1), Apply(d, src));
  }

  lemma ExplainedPrefix(w: WInst, adds: seq<byte>, src: seq<byte>, out: seq<byte>, whole: seq<byte>)
    requires Explains(w, adds, src, whole) && out <= whole && w.position == |out|
    ensures Perform(w, adds, src, out) <= whole
  {
    var r := Perform(w, adds, src, out);
    if w.kind == Copy && w.mode != FromSource {
      forall k | |out| <= k < |out| + w.size ensures whole[k] == whole[k - |out| + w.addr] {
        assert whole[k] == Said(w, adds, src, whole, k);
      }
      CopyBytesUnique(out, whole, w.addr, w.size);
    } else {
      forall k | 0 <= k < |r| ensures r[k] == whole[k] {
        if k < |out| {
          assert r[k] == r[..|out|][k] == out[k];
        } else {
          assert whole[k] == Said(w, adds, src, whole, k);
        }
      }
    }
  }

  lemma {:induction false} ExplainedApplyTo(d: Delta, src: seq<byte>, whole: seq<byte>, n: nat)
    requires WellFormed(d, |src|) && n <= |d.inst| && |whole| == d.length
    requires forall i :: 0 <= i < |d.inst| ==> Explains(d.inst[i], d.adds, src, whole)
    ensures ApplyTo(d, src, n) <= whole
  {
    if n > 0 {
      ExplainedApplyTo(d, src, whole, n - 1);
      ExplainedPrefix(d.inst[n - 1], d.adds, src, ApplyTo(d, src, n - 1), whole);
    }
  }

  /** Only one file explains every instruction of a delta: the result of applying it. */
  lemma ExplainedIsApply(d: Delta, src: seq<byte>, whole: seq<byte>)
    requires WellFormed(d, |src|) && |whole| == d.length
    requires forall i :: 0 <= i < |d.inst| ==> Explains(d.inst[i], d.adds, src, whole)
    ensures whole == Apply(d, src)
  {
    ExplainedApplyTo(d, src, whole, |d.inst|);
  }
}
