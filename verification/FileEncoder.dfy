/**
 The encoder put together: input cut into windows, each window searched and encoded, its header
 written; and the windows put together as a whole-file delta, ready to be merged with others.
 */
module FileEncoder {
  import opened Bytes
  import opened WindowFormat
  import opened WholeDelta
  import opened DeltaMerge
  import opened DeltaFile
  import Adler32
  import EncoderInput
  import StreamDecoder
  import StringMatch
  import WholeAppend

  datatype Options = Options(search: StringMatch.Config, slots: nat, blksize: nat, winsize: nat, calls: nat,
                             prompt: bool, tables: nat -> StringMatch.Tables, eof: bool, app: Option<seq<byte>>,
                               adler: bool)
  {
    /** What the code demands: room in the queue, windows that the decoder accepts, offsets that fit. */
    predicate Suit(source: seq<byte>, chunks: seq<seq<byte>>) {
      && search.Valid() && slots >= 5 && blksize > 0 && 0 < winsize <= StreamDecoder.HARDMAXWINSIZE
      && chunks != [] && (forall i :: 0 <= i < |chunks| ==> |chunks[i]| <= winsize)
      && |source| + 2 * winsize <= StreamDecoder.XOFF_LIMIT && |Flat(chunks)| < StreamDecoder.XOFF_LIMIT
      && (app.Some? ==> |app.value| < TWO64 - 1)
    }
  }

  /** How encoding may fail: waiting for a block of a source that is not there at once, or with a full
      queue that cannot be compacted, for which windows must be larger than the queue. */
  predicate MayFail(opt: Options, sourced: bool, status: StringMatch.Status) {
    match status
    case Finished => true
    case NeedBlock => sourced && !opt.prompt
    case Overlapped => opt.slots + 2 <= opt.winsize
  }

  /** A window that every decoder with the same source reproduces. */
  ghost predicate Sound(source: Option<seq<byte>>, w: EncWindow) {
    forall cfg: StreamDecoder.Config :: cfg.blksize > 0 && cfg.source == source ==> Decodable(cfg, w)
  }

  lemma EncodedIsSound(source: Option<seq<byte>>, target: seq<byte>, srcbase: nat, srclen: nat,
                       data: seq<byte>, inst: seq<byte>, addr: seq<byte>, winsize: nat)
    requires StringMatch.Encodes(source, target, srcbase, srclen, data, inst, addr)
    requires |target| <= winsize <= StreamDecoder.HARDMAXWINSIZE && winsize > 0
    requires |StringMatch.Contents(source)| + 2 * winsize <= StreamDecoder.XOFF_LIMIT
    ensures Sound(source, EncWindow(if srclen > 0 then srcbase else 0, srclen, target, data, inst, addr))
  {
    hide DecodeWindow, AllSized, StartState, Decodable;
    forall cfg: StreamDecoder.Config | cfg.blksize > 0 && cfg.source == source
      ensures Decodable(cfg, EncWindow(if srclen > 0 then srcbase else 0, srclen, target, data, inst, addr))
    {
      var w := Window(StringMatch.Contents(source), cfg.blksize, srcbase, srclen, |target|);
      assert w.Valid() && DecodeWindow(w, data, inst, addr) == Ok(target);
      FinishedIsDecodable(cfg, w, target, data, inst, addr);
    }
  }

  /** All output of a decoder that gets the file in these pieces is the target. */
  ghost predicate Outputs(cfg: StreamDecoder.Config, first: seq<byte>, pieces: seq<seq<byte>>, target: seq<byte>)
    requires cfg.blksize > 0
  {
    var r := StreamDecoder.DriveAll(cfg, StreamDecoder.Drive(cfg, StreamDecoder.Start(), first), pieces);
    r.end.Wants? && OutputBytes(r.events) == target
  }

  /** However the file is cut, and whatever the blocks of the decoder's source. */
  ghost predicate Reproduces(file: seq<byte>, source: Option<seq<byte>>, target: seq<byte>) {
    forall cfg: StreamDecoder.Config, first, pieces |
      Emits(cfg) && cfg.source == source && first + Flat(pieces) == file :: Outputs(cfg, first, pieces, target)
  }

  /** The windows written so far, and the windows of the input that they stand for. */
  ghost predicate Written(source: Option<seq<byte>>, ws: seq<EncWindow>, windows: seq<seq<byte>>) {
    && |ws| == |windows|
    && forall i :: 0 <= i < |ws| ==> ws[i].target == windows[i] && Sound(source, ws[i])
  }

  lemma {:induction false} TargetsAre(source: Option<seq<byte>>, ws: seq<EncWindow>, windows: seq<seq<byte>>)
    requires Written(source, ws, windows)
    ensures Targets(ws) == Flat(windows) && LastStart(ws) <= |Targets(ws)|
    decreases |ws|
  {
    hide Sound;
    if ws != [] {
      TargetsAre(source, ws[1..], windows[1..]);
    }
  }

  lemma {:induction false} FileBytesAppend(ws: seq<EncWindow>, w: EncWindow, adler: bool)
    ensures FileBytes(ws + [w], adler) == FileBytes(ws, adler) + (WindowHeader(w, adler) + Sections(w))
    decreases |ws|
  {
    hide WindowHeader, Sections;
    if ws == [] {
      assert [w][1..] == [] && ([] + [w])[0] == w && FileBytes([w], adler) == WindowBytes(w, adler) + [];
    } else {
      FileBytesAppend(ws[1..], w, adler);
      assert (ws + [w])[0] == ws[0] && (ws + [w])[1..] == ws[1..] + [w];
      Regroup(WindowBytes(ws[0], adler), FileBytes(ws[1..], adler), WindowHeader(w, adler) + Sections(w));
    }
  }

  lemma Regroup(a: seq<byte>, b: seq<byte>, c: seq<byte>)
    ensures a + (b + c) == a + b + c
  {
  }

  lemma WrittenReproduces(source: Option<seq<byte>>, ws: seq<EncWindow>, windows: seq<seq<byte>>,
                          app: Option<seq<byte>>, adler: bool,
                          file: seq<byte>)
    requires Written(source, ws, windows) && |Flat(windows)| < StreamDecoder.XOFF_LIMIT
    requires (app.Some? ==> |app.value| < TWO64 - 1) && file == FileHeader(app) + FileBytes(ws, adler)
    ensures Reproduces(file, source, Flat(windows))
  {
    TargetsAre(source, ws, windows);
    forall cfg: StreamDecoder.Config, first: seq<byte>, pieces: seq<seq<byte>> |
      Emits(cfg) && cfg.source == source && first + Flat(pieces) == file
      ensures Outputs(cfg, first, pieces, Flat(windows))
    {
      hide FileHeader, FileBytes, Decodable;
      forall i | 0 <= i < |ws| ensures Decodable(cfg, ws[i]) { assert Sound(source, ws[i]); }
      FileRoundTrip(cfg, app, ws, adler, first, pieces);
    }
  }

  /** One window: searched, encoded and written behind what there is of the file. */
  method WriteWindow(opt: Options, source: Option<seq<byte>>, target: seq<byte>, k: nat, carry: StringMatch.Carry,
                     file: seq<byte>, ghost ws: seq<EncWindow>)
    returns (status: StringMatch.Status, file': seq<byte>, next: StringMatch.Carry, ghost w: EncWindow)
    requires opt.search.Valid() && opt.slots >= 5 && opt.blksize > 0
    requires |target| <= opt.winsize <= StreamDecoder.HARDMAXWINSIZE && opt.winsize > 0
    requires |StringMatch.Contents(source)| + 2 * opt.winsize <= StreamDecoder.XOFF_LIMIT
    requires (opt.app.Some? ==> |opt.app.value| < TWO64 - 1) && carry.Fits(|StringMatch.Contents(source)|)
    requires file == (if k == 0 then [] else FileHeader(opt.app)) + FileBytes(ws, opt.adler) && |ws| == k
    ensures status.Finished? ==> w.target == target && Sound(source, w) && next.Fits(|StringMatch.Contents(source)|)
    ensures status.Finished? ==> file' == FileHeader(opt.app) + FileBytes(ws + [w], opt.adler)
    ensures MayFail(opt, source.Some?, status)
  {
    hide Sound, FileHeader, WindowHeader, Sections, StringMatch.CanOverlap, StringMatch.LogWritten,
         StringMatch.OneRun;
    var cksumPos: nat := *;
    var srcbase, srclen, data, inst, addr;
    ghost var log;
    status, srcbase, srclen, data, inst, addr, next, log :=
      StringMatch.EncodeWindow(opt.search, target, source, opt.eof, opt.slots, opt.blksize, opt.prompt, opt.tables(k),
                               cksumPos, carry, opt.calls);
    if status.Overlapped? {
      StringMatch.OverlapNeedsRoom(target, StringMatch.Contents(source), opt.slots);
    }
    var win := EncWindow(if srclen > 0 then srcbase else 0, srclen, target, data, inst, addr);
    file', w := file, win;
    if status.Finished? {
      EncodedIsSound(source, target, srcbase, srclen, data, inst, addr, opt.winsize);
      var header := EmitHdr(k, opt.app, win, opt.adler);
      file' := file + header + (data + inst + addr);
      FileBytesAppend(ws, win, opt.adler);
      SectionsAre(win);
      FileGrows(k, FileHeader(opt.app), FileBytes(ws, opt.adler), WindowHeader(win, opt.adler), Sections(win), ws,
                opt.adler);
    }
  }

  lemma SectionsAre(w: EncWindow)
    ensures Sections(w) == w.data + w.inst + w.addr
  {
  }

  lemma FileGrows(k: nat, head: seq<byte>, before: seq<byte>, header: seq<byte>, sections: seq<byte>,
                  ws: seq<EncWindow>, adler: bool)
    requires |ws| == k && before == FileBytes(ws, adler)
    ensures (if k == 0 then [] else head) + before + ((if k == 0 then head else []) + header) + sections
            == head + (before + (header + sections))
  {
    hide WindowBytes;
    if k == 0 {
      assert before == [];
      assert [] + [] + (head + header) + sections == head + ([] + (header + sections));
    } else {
      assert head + before + ([] + header) + sections == head + (before + (header + sections));
    }
  }

  /** The whole encoder: if the search of every window comes to its end, the file decodes, cut in any
      way, to the pieces of input put together. */
  method EncodeFile(opt: Options, source: Option<seq<byte>>, chunks: seq<seq<byte>>)
    returns (status: StringMatch.Status, file: seq<byte>)
    requires opt.Suit(StringMatch.Contents(source), chunks)
    ensures status.Finished? ==> Reproduces(file, source, Flat(chunks))
    ensures MayFail(opt, source.Some?, status)
    ensures opt.slots + 2 > opt.winsize && (source.Some? ==> opt.prompt) ==> status.Finished?
  {
    hide Reproduces, Sound, FileBytes, FileHeader;
    var windows := EncoderInput.EncodeAll(opt.winsize, chunks);
    status, file := StringMatch.Finished, [];
    var carry := StringMatch.FIRST_CARRY;
    ghost var ws: seq<EncWindow> := [];
    NoFile(opt.adler);
    for k := 0 to |windows|
      invariant status.Finished? && carry.Fits(|StringMatch.Contents(source)|)
      invariant Written(source, ws, windows[..k])
      invariant file == (if k == 0 then [] else FileHeader(opt.app)) + FileBytes(ws, opt.adler)
    {
      ghost var w;
      status, file, carry, w := WriteWindow(opt, source, windows[k], k, carry, file, ws);
      if !status.Finished? {
        return;
      }
      ws := ws + [w];
      assert windows[..k + 1] == windows[..k] + [windows[k]];
    }
    assert windows[..|windows|] == windows;
    WrittenReproduces(source, ws, windows, opt.app, opt.adler, file);
  }

  lemma NoFile(adler: bool)
    ensures FileBytes([], adler) == []
  {
  }

  // ----- deltas to be merged

  /** The same windows put together as a whole-file delta: applied to the source it gives the input. */
  method EncodeDelta(opt: Options, source: seq<byte>, chunks: seq<seq<byte>>)
    returns (status: StringMatch.Status, whole: WholeState)
    requires opt.Suit(source, chunks)
    ensures fresh(whole)
    ensures status.Finished? ==> WellFormed(whole.State(), |source|) && Apply(whole.State(), source) == Flat(chunks)
    ensures MayFail(opt, true, status)
  {
    hide AllSized, DecodeWindow, StartState, WholeAppend.Tells, StringMatch.Encodes, WellFormed, Apply,
         WholeState.State, Aligned, StringMatch.CanOverlap, StringMatch.LogWritten, StringMatch.OneRun;
    var windows := EncoderInput.EncodeAll(opt.winsize, chunks);
    status := StringMatch.Finished;
    whole := new WholeState();
    var carry := StringMatch.FIRST_CARRY;
    var winstart := 0;
    NothingTold(source);
    for k := 0 to |windows|
      invariant status.Finished? && carry.Fits(|source|) && winstart == |Flat(windows[..k])| && fresh(whole)
      invariant WholeAppend.Tells(whole.State(), source, Flat(windows[..k]), [])
    {
      var cksumPos: nat := *;
      var srcbase, srclen, data, inst, addr;
      ghost var log;
      status, srcbase, srclen, data, inst, addr, carry, log :=
        StringMatch.EncodeWindow(opt.search, windows[k], Some(source), opt.eof, opt.slots, opt.blksize, opt.prompt,
                                 opt.tables(k), cksumPos, carry, opt.calls);
      if !status.Finished? {
        if status.Overlapped? { StringMatch.OverlapNeedsRoom(windows[k], source, opt.slots); }
        return;
      }
      var w := Window(source, opt.blksize, srcbase, srclen, |windows[k]|);
      EncodesWindow(Some(source), windows[k], w, data, inst, addr);
      var adler32 := Adler32.Adler32(1, windows[k]);
      WholeAppend.AppendWindow(whole, w, winstart, adler32, data, inst, addr, Flat(windows[..k]), windows[k]);
      FlatAppend(windows[..k], windows[k]);
      assert windows[..k + 1] == windows[..k] + [windows[k]];
      winstart := winstart + |windows[k]|;
    }
    assert windows[..|windows|] == windows;
    AllTold(whole.State(), source, Flat(windows));
  }

  lemma NothingTold(source: seq<byte>)
    ensures WholeAppend.Tells(Delta([], [], [], 0), source, [], [])
  {
  }

  lemma AllTold(d: Delta, source: seq<byte>, target: seq<byte>)
    requires WholeAppend.Tells(d, source, target, [])
    ensures WellFormed(d, |source|) && Apply(d, source) == target
  {
    assert target + [] == target;
  }

  lemma EncodesWindow(source: Option<seq<byte>>, target: seq<byte>, w: Window, data: seq<byte>, inst: seq<byte>,
                      addr: seq<byte>)
    requires StringMatch.Encodes(source, target, w.cpyoff, w.cpylen, data, inst, addr)
    requires w.source == StringMatch.Contents(source) && w.blksize > 0 && w.tgtlen == |target|
    ensures w.Valid() && DecodeWindow(w, data, inst, addr) == Ok(target) && AllSized(w, StartState(w, data, inst, addr))
  {
    hide DecodeWindow, AllSized, StartState;
    assert w == Window(StringMatch.Contents(source), w.blksize, w.cpyoff, w.cpylen, |target|);
  }

  lemma WellFormedMergeable(d: Delta, n: nat)
    requires WellFormed(d, n)
    ensures Mergeable(d)
  {
    forall i | 0 <= i < |d.inst| ensures Trusted(d.inst[i], d.adds) { assert InstOk(d.inst[i], d.adds, n); }
  }

  /** Two versions later: deltas encoded from the first file to the second and from the second to the
      third merge into one from the first to the third. */
  method EncodeAndMerge(opt: Options, original: seq<byte>, second: seq<seq<byte>>, third: seq<seq<byte>>)
    returns (status: StringMatch.Status, merged: WholeState)
    requires opt.Suit(original, second) && opt.Suit(Flat(second), third)
    ensures status.Finished? ==>
              WellFormed(merged.State(), |original|) && Apply(merged.State(), original) == Flat(third)
    ensures MayFail(opt, true, status)
  {
    var d1, d2;
    merged := new WholeState();
    status, d1 := EncodeDelta(opt, original, second);
    if !status.Finished? {
      return;
    }
    status, d2 := EncodeDelta(opt, Flat(second), third);
    if status.Finished? {
      WellFormedMergeable(d2.State(), |Flat(second)|);
      var ret := merged.MergeInputs(d1, d2, |original|);
    }
  }
}
