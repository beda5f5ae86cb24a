/**
 Copies whose range may run into the bytes they produce: the meaning of a COPY within the target
 (section 3 of RFC 3284).
 */
module OverlapCopy {
  import opened Bytes

  /** Copies `n` bytes one at a time, so that the range may run into the bytes it produces. */
  function CopyBytes(out: seq<byte>, addr: nat, n: nat): (r: seq<byte>)
    requires addr < |out|
    ensures |r| == |out| + n && r[..|out|] == out
    decreases n
  {
    if n == 0 then out else CopyBytes(out + [out[addr]], addr + 1, n - 1)
  }

  /** Each byte copied is the byte as far before it as the copy started before the end. */
  lemma {:induction false} CopyBytesAt(out: seq<byte>, addr: nat, n: nat, k: nat)
    requires addr < |out| <= k < |out| + n
    ensures CopyBytes(out, addr, n)[k] == CopyBytes(out, addr, n)[k - |out| + addr]
    decreases n
  {
    var next := out + [out[addr]];
    var r := CopyBytes(next, addr + 1, n - 1);
    assert r[..|next|] == next;
    if k == |out| {
      assert r[|out|] == next[|out|] && r[addr] == next[addr];
    } else {
      CopyBytesAt(next, addr + 1, n - 1, k);
    }
  }

  /** The copy is the only continuation of `out` in which every new byte repeats an earlier one. */
  lemma {:induction false} CopyBytesUnique(out: seq<byte>, whole: seq<byte>, addr: nat, n: nat)
    requires addr < |out| && out <= whole && |out| + n <= |whole|
    requires forall k :: |out| <= k < |out| + n ==> whole[k] == whole[k - |out| + addr]
    ensures CopyBytes(out, addr, n) <= whole
    decreases n
  {
    if n > 0 {
      assert whole[|out|] == whole[addr] == out[addr];
      CopyBytesUnique(out + [out[addr]], whole, addr + 1, n - 1);
    }
  }

  /** A copy whose bytes are known to repeat an earlier stretch of `whole` continues `whole`. */
  lemma CopyBytesContinues(whole: seq<byte>, p: nat, addr: nat, n: nat)
    requires addr < p && p + n <= |whole|
    requires forall k :: p <= k < p + n ==> whole[k] == whole[k - p + addr]
    ensures CopyBytes(whole[..p], addr, n) == whole[..p + n]
  {
    CopyBytesUnique(whole[..p], whole, addr, n);
  }
}
