/**
 How xd3_encode_input cuts its input into windows, whatever the sizes of the pieces that the
 caller supplies.
 */
module EncoderInput {
  import opened Bytes

  datatype EncState = EncInput | EncSearch | EncPostWin
  datatype Status = Input | WinStart | WinFinish

  function Rest(leftover: Option<seq<byte>>): seq<byte> {
    if leftover.Some? then leftover.value else []
  }

  /** Everything that is there, in its order. */
  function Together(buf: seq<byte>, leftover: Option<seq<byte>>, chunk: seq<byte>): seq<byte> {
    buf + Rest(leftover) + chunk
  }

  /** All windows but the last have exactly `winsize` bytes, and the last has no more. */
  ghost predicate FullBefore(windows: seq<seq<byte>>, winsize: nat) {
    && (forall i :: 0 <= i < |windows| - 1 ==> |windows[i]| == winsize)
    && (windows != [] ==> |windows[|windows| - 1]| <= winsize)
  }

  ghost predicate LastShort(windows: seq<seq<byte>>, winsize: nat) {
    windows != [] && |windows[|windows| - 1]| < winsize
  }

  lemma WindowAdded(windows: seq<seq<byte>>, w: seq<byte>, winsize: nat)
    requires FullBefore(windows, winsize) && !LastShort(windows, winsize) && |w| <= winsize
    ensures FullBefore(windows + [w], winsize) && (LastShort(windows + [w], winsize) <==> |w| < winsize)
  {
  }

  class Encoder {
    const winsize: nat
    var flush: bool
    var nextIn: Option<seq<byte>>    // next_in and avail_in
    var bufIn: seq<byte>             // the first buf_avail bytes of buf_in
    var leftover: Option<seq<byte>>  // buf_leftover and buf_leftavail
    var state: EncState
    ghost var pending: bool          // nextIn was supplied and has not been looked at
    ghost var supplied: seq<byte>
    ghost var windows: seq<seq<byte>>

    constructor (winsize: nat)
      requires winsize > 0
      ensures Valid() && state.EncInput? && !pending && !flush && fresh(this)
      ensures this.winsize == winsize && supplied == [] && windows == []
    {
      this.winsize, flush, nextIn, bufIn, leftover, state := winsize, false, None, [], None, EncInput;
      pending, supplied, windows := false, [], [];
    }

    /** Input of which no window has begun. */
    ghost function Held(): seq<byte>
      reads this
    {
      Together(bufIn, leftover, if pending && nextIn.Some? then nextIn.value else [])
    }

    /** Every window but the last is full; a window that is not full was begun at the flush and
        took all there was. */
    ghost predicate Cut()
      reads this
    {
      FullBefore(windows, winsize) && (LastShort(windows, winsize) ==> flush && Held() == [] && !pending)
    }

    ghost predicate Consistent()
      reads this
    {
      && winsize > 0 && |bufIn| < winsize
      && (leftover.Some? ==> bufIn == [] && 0 < |leftover.value| < winsize)
      && (if state.EncInput? then pending ==> nextIn.Some? && |nextIn.value| <= winsize
          else !pending && bufIn == [] && windows != [] && nextIn == Some(windows[|windows| - 1]))
      && supplied == Flat(windows) + Held()
      && Cut()
    }

    /** What holds between calls. */
    ghost predicate Valid()
      reads this
    {
      && Consistent()
      && (state.EncInput? ==> leftover == None)
      && (state.EncInput? && flush && !pending ==> Held() == [] && windows != [])
    }

    /** xd3_avail_input, after xd3_set_flags for the last piece. */
    method AvailInput(chunk: seq<byte>, last: bool)
      requires Valid() && state.EncInput? && !pending && !flush && |chunk| <= winsize
      modifies this`nextIn, this`flush, this`supplied, this`pending
      ensures Valid() && flush == last && pending && supplied == old(supplied) + chunk
    {
      assert Flat(windows) + Held() + chunk == Flat(windows) + (Held() + chunk);
      nextIn, flush, supplied, pending := Some(chunk), last, supplied + chunk, true;
    }

    /** xd3_encode_buffer_leftover. */
    method BufferLeftover() returns (ready: bool)
      requires nextIn.Some? && winsize > 0 && |bufIn| < winsize
      requires leftover.Some? ==> bufIn == [] && |leftover.value| < winsize && nextIn == Some([])
      modifies this`nextIn, this`bufIn, this`leftover
      ensures nextIn.Some? && |bufIn| < winsize
      ensures var all := Together(old(bufIn), old(leftover), old(nextIn.value));
              if ready then
                && bufIn == [] && |nextIn.value| == Min(winsize, |all|) && (|all| < winsize ==> flush)
                && nextIn.value + Rest(leftover) == all
                && (leftover.Some? ==> 0 < |leftover.value| < |old(nextIn.value)| && |all| > winsize)
              else !flush && leftover == None && bufIn == all
    {
      if leftover.Some? {
        bufIn, leftover := leftover.value, None;
      }
      var avail := |nextIn.value|;
      var room := winsize - |bufIn|;
      var take := if room < avail then room else avail;
      var input := nextIn.value;
      bufIn := bufIn + input[..take];
      if take < avail {
        leftover := Some(input[take..]);
      } else if |bufIn| < winsize && !flush {
        return false;
      }
      nextIn, bufIn := Some(bufIn), [];
      return true;
    }

    /** How much there is still to begin a window with. */
    ghost function Ahead(): nat
      reads this
    {
      |Held()| + if pending then 1 else 0
    }

    /** enc_flush: begins a window if there is input enough. */
    method Begin() returns (status: Status)
      requires Consistent() && state.EncInput? && (if leftover.Some? then nextIn == Some([]) && !pending else pending)
      modifies this`state, this`nextIn, this`bufIn, this`leftover, this`pending, this`windows
      ensures Valid() && status == (if state.EncInput? then Input else WinStart) && !pending
      ensures state.EncInput? ==> !flush && windows == old(windows)
      ensures !state.EncInput? ==> state.EncSearch? && Ahead() < old(Ahead())
      ensures !state.EncInput? ==> nextIn.Some? && windows == old(windows) + [nextIn.value]
    {
      hide Flat, FullBefore, LastShort, Held, Rest, Together;
      LastIsFull();
      ghost var all := Held();
      HeldParts();
      if leftover.Some? || bufIn != [] || (|nextIn.value| < winsize && !flush) {
        var ready := BufferLeftover();
        if !ready {
          pending := false;
          HeldIs(bufIn);
          return Input;
        }
      }
      StartWindow(all);
      return WinStart;
    }

    /** A window begins with what is in `nextIn`; the rest of what was held stays. */
    method StartWindow(ghost all: seq<byte>)
      requires nextIn.Some? && winsize > 0 && bufIn == [] && |nextIn.value| <= winsize
      requires nextIn.value + Rest(leftover) == all && supplied == Flat(windows) + all
      requires leftover.Some? ==> 0 < |leftover.value| < winsize && |nextIn.value| == winsize
      requires |nextIn.value| < winsize ==> flush
      requires FullBefore(windows, winsize) && !LastShort(windows, winsize)
      modifies this`state, this`pending, this`windows
      ensures Valid() && state.EncSearch? && !pending && windows == old(windows) + [nextIn.value]
      ensures |Held()| + |nextIn.value| == |all|
    {
      hide Flat, FullBefore, LastShort, Held, Together;
      Splits(Flat(windows), all, nextIn.value, Rest(leftover));
      FlatAppend(windows, nextIn.value);
      WindowAdded(windows, nextIn.value, winsize);
      state, pending := EncSearch, false;
      windows := windows + [nextIn.value];
      HeldIs(Rest(leftover));
    }

    lemma HeldParts()
      requires nextIn.Some? && (if leftover.Some? then nextIn == Some([]) && !pending else pending)
      ensures Held() == Together(bufIn, leftover, nextIn.value)
      ensures leftover.Some? ==> |Held()| >= |leftover.value|
      ensures Rest(None) == [] && (leftover == None && bufIn == [] ==>
                                   Held() == nextIn.value == nextIn.value + Rest(None))
    {
    }

    lemma HeldIs(s: seq<byte>)
      requires !pending && (if leftover.Some? then bufIn == [] && s == Rest(leftover) else s == bufIn)
      ensures Held() == s
    {
    }

    lemma Splits(before: seq<byte>, all: seq<byte>, w: seq<byte>, rest: seq<byte>)
      requires all == w + rest
      ensures before + all == before + w + rest && |all| == |w| + |rest|
    {
    }

    /** There is something to begin a window with, so the last one was full. */
    lemma LastIsFull()
      requires Consistent() && (pending || (leftover.Some? && leftover.value != []))
      ensures FullBefore(windows, winsize) && !LastShort(windows, winsize)
    {
    }

    /** xd3_encode_input, with the search and the output of a window as one step. */
    method EncodeInput() returns (status: Status)
      requires Valid() && (state.EncInput? && nextIn.Some? ==> pending)
      modifies this`state, this`nextIn, this`bufIn, this`leftover, this`pending, this`windows
      ensures Valid()
      ensures status.Input? <==> state.EncInput?
      ensures status.Input? ==> !pending || nextIn == None
      ensures status.Input? && flush ==> Held() == []
      ensures supplied == old(supplied) && flush == old(flush)
      ensures if status.WinStart? then nextIn.Some? && windows == old(windows) + [nextIn.value]
              else windows == old(windows)
      ensures !status.Input? ==>
                Ahead() < old(Ahead()) || (Ahead() == old(Ahead()) && state.EncPostWin? && old(state.EncSearch?))
    {
      match state {
        case EncInput =>
          if nextIn == None {
            return Input;
          }
          status := Begin();
        case EncSearch =>
          state := EncPostWin;
          return WinFinish;
        case EncPostWin =>
          nextIn := Some([]);
          state := EncInput;
          if leftover.Some? {
            status := Begin();
          } else {
            return Input;
          }
      }
    }
  }

  /** The caller's loop: every byte supplied is in one window, in order, and every window but the
      last has exactly `winsize` bytes. */
  method EncodeAll(winsize: nat, chunks: seq<seq<byte>>) returns (windows: seq<seq<byte>>)
    requires winsize > 0 && chunks != [] && forall i :: 0 <= i < |chunks| ==> |chunks[i]| <= winsize
    ensures windows != [] && Flat(windows) == Flat(chunks)
    ensures forall i :: 0 <= i < |windows| - 1 ==> |windows[i]| == winsize
    ensures |windows[|windows| - 1]| <= winsize
  {
    hide Encoder.Ahead, Encoder.Held;
    var e := new Encoder(winsize);
    windows := [];
    for k := 0 to |chunks|
      invariant e.Valid() && e.winsize == winsize && e.state.EncInput? && !e.pending && fresh(e)
      invariant e.supplied == Flat(chunks[..k]) && (e.flush <==> k == |chunks|) && e.windows == windows
    {
      e.AvailInput(chunks[k], k == |chunks| - 1);
      FlatAppend(chunks[..k], chunks[k]);
      assert chunks[..k + 1] == chunks[..k] + [chunks[k]];
      var status := e.EncodeInput();
      if status == WinStart {
        windows := windows + [e.nextIn.value];
      }
      while status != Input
        invariant e.windows == windows
        invariant e.Valid() && e.winsize == winsize && e.supplied == Flat(chunks[..k + 1])
                  && (e.flush <==> k == |chunks| - 1)
        invariant if status == Input then e.state.EncInput? && !e.pending else !e.state.EncInput?
        decreases status != Input, e.Ahead(), e.state.EncSearch?
      {
        status := e.EncodeInput();
        if status == WinStart {
          windows := windows + [e.nextIn.value];
        }
      }
    }
    assert chunks[..|chunks|] == chunks;
  }
}
