/**
 From encoded windows to a whole-file delta (xd3_whole_append_window): the instructions of each
 window are parsed as for decoding, but put down with absolute positions instead of carried out.
 The delta then applies to what decoding the windows gives.
 */
module WholeAppend {
  import opened Bytes
  import opened Integers
  import opened AddressCache
  import opened CodeTable
  import opened OverlapCopy
  import opened WindowFormat
  import opened WholeDelta
  import opened DeltaMerge

  // ----- one instruction

  /** What ExecHalf needs of the data section. */
  predicate HasData(st: DecState, h: HInst) {
    (h.typ == RUN ==> st.data != []) && (h.typ == ADD ==> h.size <= |st.data|)
  }

  /** xd3_whole_append_inst: the instruction with its position in the whole target. */
  function WholeInst(w: Window, d: Delta, winstart: nat, h: HInst): WInst {
    if h.typ == RUN then WInst(Run, FromTarget, h.size, |d.adds|, d.length)
    else if h.typ == ADD then WInst(Add, FromTarget, h.size, |d.adds|, d.length)
    else if h.addr < w.cpylen then WInst(Copy, FromSource, h.size, w.cpyoff + h.addr, d.length)
    else WInst(Copy, FromTarget, h.size, winstart + (h.addr - w.cpylen), d.length)
  }

  function Taken(st: DecState, h: HInst): nat {
    if h.typ == RUN then 1 else if h.typ == ADD then h.size else 0
  }

  function Appended(w: Window, d: Delta, winstart: nat, st: DecState, h: HInst): Delta
    requires HasData(st, h)
  {
    d.(inst := d.inst + [WholeInst(w, d, winstart, h)], length := d.length + h.size,
       adds := d.adds + st.data[..Taken(st, h)])
  }

  /** The delta so far reproduces what came before the window and what the window has produced. */
  ghost predicate Tells(d: Delta, src: seq<byte>, before: seq<byte>, out: seq<byte>) {
    WellFormed(d, |src|) && Apply(d, src) == before + out
  }

  lemma {:induction false} CopyBytesBehind(before: seq<byte>, out: seq<byte>, addr: nat, n: nat)
    requires addr < |out|
    ensures CopyBytes(before + out, |before| + addr, n) == before + CopyBytes(out, addr, n)
    decreases n
  {
    if n > 0 {
      var next := out + [out[addr]];
      assert before + out + [(before + out)[|before| + addr]] == before + next;
      CopyBytesBehind(before, next, addr + 1, n - 1);
    }
  }

  /** More adds behind change nothing for the instructions that are there. */
  lemma {:induction false} MoreAddsApply(d: Delta, more: seq<byte>, src: seq<byte>, n: nat)
    requires WellFormed(d, |src|) && n <= |d.inst|
    ensures WellFormed(d.(adds := d.adds + more), |src|)
    ensures ApplyTo(d.(adds := d.adds + more), src, n) == ApplyTo(d, src, n)
    decreases n
  {
    var e := d.(adds := d.adds + more);
    assert forall i :: 0 <= i < |d.inst| && InstOk(d.inst[i], d.adds, |src|) ==> InstOk(d.inst[i], e.adds, |src|);
    if n > 0 {
      MoreAddsApply(d, more, src, n - 1);
      var i := d.inst[n - 1];
      assert InstOk(i, d.adds, |src|);
      if i.kind == Add { assert e.adds[i.addr..i.addr + i.size] == d.adds[i.addr..i.addr + i.size]; }
      if i.kind == Run { assert e.adds[i.addr] == d.adds[i.addr]; }
    }
  }

  lemma OneMore(d: Delta, i: WInst, src: seq<byte>)
    requires WellFormed(d, |src|) && InstOk(i, d.adds, |src|) && i.position == d.length && i.size > 0
    ensures var e := d.(inst := d.inst + [i], length := d.length + i.size);
            WellFormed(e, |src|) && Apply(e, src) == Perform(i, d.adds, src, Apply(d, src))
  {
    hide *;
    OneMoreFits(d, i, |src|);
    LastPerformed(d, i, src);
  }

  lemma OneMoreFits(d: Delta, i: WInst, n: nat)
    requires WellFormed(d, n) && InstOk(i, d.adds, n) && i.position == d.length && i.size > 0
    ensures WellFormed(d.(inst := d.inst + [i], length := d.length + i.size), n)
  {
    hide InstOk;
    var e := d.(inst := d.inst + [i], length := d.length + i.size);
    forall k | 0 <= k < |e.inst| ensures InstOk(e.inst[k], e.adds, n) { }
  }

  lemma LastPerformed(d: Delta, i: WInst, src: seq<byte>)
    requires WellFormed(d, |src|) && InstOk(i, d.adds, |src|) && i.position == d.length
    requires WellFormed(d.(inst := d.inst + [i], length := d.length + i.size), |src|)
    ensures Apply(d.(inst := d.inst + [i], length := d.length + i.size), src) == Perform(i, d.adds, src, Apply(d, src))
  {
    hide Perform, Contiguous, InstOk;
    var e := d.(inst := d.inst + [i], length := d.length + i.size);
    assert e.inst[..|d.inst|] == d.inst;
    SameBefore(d, e, src, |d.inst|);
  }

  lemma {:induction false} SameBefore(d: Delta, e: Delta, src: seq<byte>, n: nat)
    requires WellFormed(d, |src|) && WellFormed(e, |src|) && n <= |d.inst| <= |e.inst| && d.adds == e.adds
    requires e.inst[..|d.inst|] == d.inst
    ensures ApplyTo(e, src, n) == ApplyTo(d, src, n)
    decreases n
  {
    if n > 0 {
      assert e.inst[n - 1] == e.inst[..|d.inst|][n - 1] == d.inst[n - 1];
      SameBefore(d, e, src, n - 1);
    }
  }

  /** Appending an instruction does to the delta what carrying it out does to the window. */
  lemma AppendTells(w: Window, d: Delta, winstart: nat, st: DecState, h: HInst, before: seq<byte>)
    requires w.Valid() && h.typ != NOOP && h.size > 0 && winstart == |before|
    requires |st.out| + h.size <= w.tgtlen ==> Reachable(w, st.out, h)
    requires ExecHalf(w, st, h).Ok? && Tells(d, w.source, before, st.out)
    ensures HasData(st, h)
    ensures Tells(Appended(w, d, winstart, st, h), w.source, before, ExecHalf(w, st, h).value.out)
    ensures ExecHalf(w, st, h).value.data == st.data[Taken(st, h)..]
  {
    var src, taken := w.source, st.data[..Taken(st, h)];
    var i := WholeInst(w, d, winstart, h);
    var e := d.(adds := d.adds + taken);
    MoreAddsApply(d, taken, src, |d.inst|);
    assert Apply(e, src) == before + st.out;
    assert d.length == winstart + |st.out|;
    InstReady(w, d, winstart, st, h);
    OneMore(e, i, src);
    PerformIsExec(w, d, winstart, st, h, before);
  }

  lemma InstReady(w: Window, d: Delta, winstart: nat, st: DecState, h: HInst)
    requires w.Valid() && h.typ != NOOP && h.size > 0 && d.length == winstart + |st.out|
    requires |st.out| + h.size <= w.tgtlen ==> Reachable(w, st.out, h)
    requires ExecHalf(w, st, h).Ok?
    ensures HasData(st, h) && InstOk(WholeInst(w, d, winstart, h), d.adds + st.data[..Taken(st, h)], |w.source|)
  {
  }

  lemma PerformIsExec(w: Window, d: Delta, winstart: nat, st: DecState, h: HInst, before: seq<byte>)
    requires w.Valid() && h.typ != NOOP && h.size > 0 && winstart == |before| && d.length == winstart + |st.out|
    requires |st.out| + h.size <= w.tgtlen ==> Reachable(w, st.out, h)
    requires ExecHalf(w, st, h).Ok? && HasData(st, h)
    requires InstOk(WholeInst(w, d, winstart, h), d.adds + st.data[..Taken(st, h)], |w.source|)
    ensures Perform(WholeInst(w, d, winstart, h), d.adds + st.data[..Taken(st, h)], w.source, before + st.out)
            == before + ExecHalf(w, st, h).value.out
  {
    hide ExecHalf, CopyBytes, InstOk;
    ExecOut(w, st, h);
    var adds := d.adds + st.data[..Taken(st, h)];
    if h.typ == RUN {
      assert adds[|d.adds|] == st.data[0];
      assert Repeat(st.data[0], h.size) == seq(h.size, k => adds[|d.adds|]);
      Behind(before, st.out, Repeat(st.data[0], h.size));
    } else if h.typ == ADD {
      assert adds[|d.adds|..|d.adds| + h.size] == st.data[..h.size];
      Behind(before, st.out, st.data[..h.size]);
    } else if h.addr >= w.cpylen {
      CopyBytesBehind(before, st.out, h.addr - w.cpylen, h.size);
    } else {
      Behind(before, st.out, w.source[w.cpyoff + h.addr..w.cpyoff + h.addr + h.size]);
    }
  }

  lemma Behind(a: seq<byte>, b: seq<byte>, c: seq<byte>)
    ensures a + b + c == a + (b + c)
  {
  }

  /** What carrying out an instruction adds. */
  lemma ExecOut(w: Window, st: DecState, h: HInst)
    requires w.Valid() && h.typ != NOOP && h.size > 0
    requires |st.out| + h.size <= w.tgtlen ==> Reachable(w, st.out, h)
    requires ExecHalf(w, st, h).Ok?
    ensures var out := ExecHalf(w, st, h).value.out;
            if h.typ == RUN then st.data != [] && out == st.out + Repeat(st.data[0], h.size)
            else if h.typ == ADD then h.size <= |st.data| && out == st.out + st.data[..h.size]
            else if h.addr < w.cpylen then
              && w.cpyoff + h.addr + h.size <= |w.source|
              && out == st.out + w.source[w.cpyoff + h.addr..w.cpyoff + h.addr + h.size]
            else h.addr - w.cpylen < |st.out| && out == CopyBytes(st.out, h.addr - w.cpylen, h.size)
  {
    hide CopyBytes, Repeat;
  }

  // ----- one opcode

  /** The same result, only that other bytes have been produced. */
  ghost predicate SameBut(r: Result<(HInst, DecState)>, s: Result<(HInst, DecState)>, out: seq<byte>) {
    match r
    case Err(e) => s == Err(e)
    case Ok((h, next)) => s == Ok((h, next.(out := out)))
  }

  lemma AddressIgnoresOut(w: Window, st: DecState, out: seq<byte>, typ: nat, size: nat)
    requires w.Valid() && st.cache.Valid() && typ < CPY + MODES
    ensures SameBut(ParseAddress(w, st, typ, size), ParseAddress(w, st.(out := out), typ, size), out)
  {
    hide DecodeAddress;
  }

  /** Parsing does not look at the bytes produced. */
  lemma ParseIgnoresOut(w: Window, st: DecState, out: seq<byte>, typ: nat, size: nat)
    requires w.Valid() && st.cache.Valid() && typ < CPY + MODES
    ensures SameBut(ParseHalf(w, st, typ, size), ParseHalf(w, st.(out := out), typ, size), out)
  {
    hide ReadInteger, ParseAddress, SameBut, Parsed;
    AddressIgnoresOut(w, st, out, typ, size);
    if ReadInteger(st.inst, TWO64).Read? {
      var rest := ReadInteger(st.inst, TWO64).rest;
      assert st.(out := out).(inst := rest) == st.(inst := rest).(out := out);
      AddressIgnoresOut(w, st.(inst := rest), out, typ, ReadInteger(st.inst, TWO64).value);
    } else {
      InvalidSame(out);
    }
  }

  lemma InvalidSame(out: seq<byte>)
    ensures SameBut(Err(InvalidInput), Err(InvalidInput), out)
  {
  }

  /** xd3_whole_append_inst. */
  method AppendInst(whole: WholeState, w: Window, winstart: nat, st: DecState, h: HInst) returns (rest: seq<byte>)
    requires HasData(st, h)
    modifies whole
    ensures whole.State() == Appended(w, old(whole.State()), winstart, st, h)
    ensures rest == st.data[Taken(st, h)..]
  {
    var position := whole.length;
    whole.length := whole.length + h.size;
    rest := st.data;
    if h.typ == RUN {
      whole.inst := whole.inst + [WInst(Run, FromTarget, h.size, |whole.adds|, position)];
      whole.adds := whole.adds + [rest[0]];
      rest := rest[1..];
    } else if h.typ == ADD {
      whole.inst := whole.inst + [WInst(Add, FromTarget, h.size, |whole.adds|, position)];
      whole.adds := whole.adds + rest[..h.size];
      rest := rest[h.size..];
    } else if h.addr < w.cpylen {
      whole.inst := whole.inst + [WInst(Copy, FromSource, h.size, w.cpyoff + h.addr, position)];
    } else {
      whole.inst := whole.inst + [WInst(Copy, FromTarget, h.size, winstart + (h.addr - w.cpylen), position)];
    }
  }

  /** The first half parsed, and the second if there is one: what DecodeOne begins with. */
  lemma RowParsed(w: Window, g: DecState)
    requires w.Valid() && Aligned(w, g) && g.inst != [] && DecodeOne(w, g).Ok? && RowSized(w, g)
    ensures var row := Row(g.inst[0]);
            && row.type1 != NOOP && row.type1 < CPY + MODES && row.type2 < CPY + MODES
            && ParseHalf(w, g.(inst := g.inst[1..]), row.type1, row.size1).Ok?
            && var (h1, g1) := ParseHalf(w, g.(inst := g.inst[1..]), row.type1, row.size1).value;
            && h1.size > 0 && Parsed(w, g.(inst := g.inst[1..]), h1, g1)
            && (row.type2 == NOOP ==> DecodeOne(w, g) == ExecHalf(w, g1, h1))
            && (row.type2 != NOOP ==> (
                  && ParseHalf(w, g1, row.type2, row.size2).Ok?
                  && var (h2, g2) := ParseHalf(w, g1, row.type2, row.size2).value;
                  && h2.size > 0 && Parsed(w, g1, h2, g2) && h2.typ != NOOP && ExecHalf(w, g2, h1).Ok?
                  && g2.out == g.out && Reach(w, ExecHalf(w, g2, h1).value, h2)
                  && DecodeOne(w, g) == ExecHalf(w, ExecHalf(w, g2, h1).value, h2)))
  {
    hide ParseHalf, ExecHalf, Row;
    RowIsRow(g.inst[0]);
  }

  ghost predicate Reach(w: Window, st: DecState, h: HInst) {
    |st.out| + h.size <= w.tgtlen ==> Reachable(w, st.out, h)
  }

  /** A parsed half is appended. */
  method AppendHalf(whole: WholeState, w: Window, winstart: nat, st: DecState, h: HInst, ghost out: seq<byte>,
                    ghost before: seq<byte>)
    returns (next: DecState)
    requires w.Valid() && h.typ != NOOP && h.size > 0 && winstart == |before| && st.out == []
    requires Reach(w, st.(out := out), h) && ExecHalf(w, st.(out := out), h).Ok?
    requires Tells(whole.State(), w.source, before, out)
    modifies whole
    ensures next == ExecHalf(w, st.(out := out), h).value.(out := [])
    ensures Tells(whole.State(), w.source, before, ExecHalf(w, st.(out := out), h).value.out)
    ensures whole.State().wininfo == old(whole.State().wininfo)
  {
    hide Tells, ExecHalf;
    AppendTells(w, whole.State(), winstart, st.(out := out), h, before);
    var rest := AppendInst(whole, w, winstart, st, h);
    ExecKeeps(w, st.(out := out), h);
    next := st.(data := rest);
  }

  lemma ExecKeeps(w: Window, st: DecState, h: HInst)
    requires w.Valid() && h.typ != NOOP && Reach(w, st, h) && ExecHalf(w, st, h).Ok?
    ensures var r := ExecHalf(w, st, h).value; r == st.(data := r.data, out := r.out)
  {
  }

  /** One opcode. */
  method AppendRow(whole: WholeState, w: Window, winstart: nat, st: DecState, ghost g: DecState,
                   ghost before: seq<byte>)
    returns (next: DecState)
    requires w.Valid() && Aligned(w, g) && g.inst != [] && st == g.(out := []) && winstart == |before|
    requires DecodeOne(w, g).Ok? && RowSized(w, g) && Tells(whole.State(), w.source, before, g.out)
    modifies whole
    ensures next == DecodeOne(w, g).value.(out := [])
    ensures Tells(whole.State(), w.source, before, DecodeOne(w, g).value.out)
    ensures whole.State().wininfo == old(whole.State().wininfo)
  {
    hide Tells, ExecHalf, ParseHalf, Row, RowSized, DecodeOne;
    RowParsed(w, g);
    var row := Row(st.inst[0]);
    ParseIgnoresOut(w, st.(inst := st.inst[1..]), g.out, row.type1, row.size1);
    var (h1, s1) := ParseHalf(w, st.(inst := st.inst[1..]), row.type1, row.size1).value;
    if row.type2 == NOOP {
      next := AppendHalf(whole, w, winstart, s1, h1, g.out, before);
    } else {
      ParseIgnoresOut(w, s1, g.out, row.type2, row.size2);
      var (h2, s2) := ParseHalf(w, s1, row.type2, row.size2).value;
      ghost var mid := ExecHalf(w, s2.(out := g.out), h1).value;
      var s3 := AppendHalf(whole, w, winstart, s2, h1, g.out, before);
      assert s3.(out := mid.out) == mid;
      next := AppendHalf(whole, w, winstart, s3, h2, mid.out, before);
    }
  }

  /** xd3_whole_append_window: after it the delta reproduces the decoded window behind what it
      reproduced before. */
  method AppendWindow(whole: WholeState, w: Window, winstart: nat, adler32: nat, data: seq<byte>, inst: seq<byte>,
                      addr: seq<byte>,
                      ghost before: seq<byte>, ghost target: seq<byte>)
    requires w.Valid() && DecodeWindow(w, data, inst, addr) == Ok(target)
             && AllSized(w, StartState(w, data, inst, addr))
    requires Tells(whole.State(), w.source, before, []) && winstart == |before|
    modifies whole
    ensures Tells(whole.State(), w.source, before + target, [])
    ensures whole.State().wininfo == old(whole.State().wininfo) + [WinInfo(|before|, |target|, adler32)]
  {
    assert before + [] == before;
    whole.wininfo := whole.wininfo + [WinInfo(winstart, w.tgtlen, adler32)];
    assert Tells(whole.State(), w.source, before, []) by { WininfoApply(old(whole.State()), whole.State(), w.source); }
    var st := StartState(w, data, inst, addr);
    ghost var g := st;
    ghost var info := whole.State().wininfo;
    while st.inst != []
      invariant st == g.(out := []) && Aligned(w, g) && DecodeFrom(w, g) == Ok(target) && AllSized(w, g)
      invariant Tells(whole.State(), w.source, before, g.out) && whole.State().wininfo == info
      decreases |st.inst|
    {
      hide Tells, DecodeOne, RowSized;
      st := AppendRow(whole, w, winstart, st, g, before);
      g := DecodeOne(w, g).value;
    }
    assert g.out == target;
    assert before + target + [] == before + target;
  }

  lemma WininfoApply(d: Delta, e: Delta, src: seq<byte>)
    requires WellFormed(d, |src|) && e == d.(wininfo := e.wininfo)
    ensures WellFormed(e, |src|) && Apply(e, src) == Apply(d, src)
  {
    assert e.inst[..|d.inst|] == d.inst;
    SameBefore(d, e, src, |d.inst|);
  }
}
