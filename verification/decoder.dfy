/**
 The receive side of the server: `rx()` and `flush()`.

 The input is the sequence of bytes already buffered by the transport, so a
 wait for the next byte succeeds exactly when that sequence is not empty.
 `rx()` repeatedly reads a start byte, an id, the registered number of data
 bytes and a checksum byte; a frame whose checksum matches is handed to the
 entry's unpacking callback. A byte other than the start byte, an unknown id
 or a missing byte makes it flush the input and return.
 */
module Decoder {
  import opened Bytes
  import opened Registry
  import opened Encoder

  /** One call of an RX unpacking callback: the RX table index of the entry
      whose callback ran, and the data bytes it was given. */
  datatype Dispatch = Dispatch(index: nat, data: seq<uint8>)

  /** The effect of one `rx()` call: the callbacks it made, in order; the input
      bytes it left in the transport; whether it returned by flushing. */
  datatype RxOutcome = RxOutcome(trace: seq<Dispatch>, remaining: seq<uint8>, flushed: bool)
  {
    /** The outcome when callbacks `ds` ran before this one's. */
    function After(ds: seq<Dispatch>): RxOutcome
    {
      this.(trace := ds + trace)
    }
  }

  /** `flush(); return;`: every remaining input byte is discarded and no
      further callback runs. */
  const Aborted := RxOutcome([], [], true)

  /** What one pass of the `rx()` loop body finds at the head of the input. */
  datatype Step =
    | Idle                    // no byte available: the loop ends
    | Fault                   // a framing fault: flush and return
    | Read(index: nat, data: seq<uint8>, check: uint8, rest: seq<uint8>)
                              // a whole frame for RX entry `index`

  /** One pass of the `rx()` loop body: read the start byte, the id, look the
      id up, read the entry's data bytes and the checksum byte. Any byte that
      is not there (the wait fails), a byte other than the start byte or an
      unknown id is a fault. */
  function ReadFrame(s: Server, input: seq<uint8>): (st: Step)
    requires s.Valid() && s.RxLensFit()
    ensures st.Idle? <==> |input| == 0
    ensures st.Read? ==> st.index < |s.rxs| && |st.data| == s.rxs[st.index].len as int
    ensures st.Read? ==> |input| == |st.data| + 3 + |st.rest| && st.rest == input[|st.data| + 3..]
    ensures st.Read? ==> input[0] == s.startByte && Find(RxIds(s.rxs), input[1]) == Some(st.index)
    ensures st.Read? ==> st.data == input[2..|st.data| + 2] && st.check == input[|st.data| + 2]
  {
    if |input| == 0 then Idle
    else if input[0] != s.startByte then Fault
    else if |input| == 1 then Fault
    else match Find(RxIds(s.rxs), input[1])
      case None => Fault
      case Some(i) =>
        var n := s.rxs[i].len as int;
        if |input| < n + 3 then Fault
        else Read(i, input[2..n + 2], input[n + 2], input[n + 3..])
  }

  /** `rx()` over the buffered input, one frame at a time: a frame whose
      checksum byte matches the checksum of its data is handed to its entry's
      callback; one that does not is dropped and decoding goes on. */
  function Rx(s: Server, input: seq<uint8>): (r: RxOutcome)
    requires s.Valid() && s.RxLensFit()
    ensures r.remaining == []
    ensures 3 * |r.trace| <= |input|
    decreases |input|
  {
    match ReadFrame(s, input)
    case Idle => RxOutcome([], [], false)
    case Fault => Aborted
    case Read(i, data, check, rest) =>
      var later := Rx(s, rest);
      if check == Checksum(data) then later.After([Dispatch(i, data)]) else later
  }

  /** One pass of the `rx()` loop body as the source reads it: byte by byte,
      adding each data byte to a running 8-bit checksum as it arrives. It
      reads the same frame as `ReadFrame`, and its running checksum is the
      checksum of the data. */
  method ReadFrameBytes(s: Server, frame: seq<uint8>) returns (st: Step, checksum: uint8)
    requires s.Valid() && s.RxLensFit() && |frame| > 0
    ensures st == ReadFrame(s, frame)
    ensures st.Read? ==> checksum == Checksum(st.data)
  {
    checksum := 0x00;
    if frame[0] != s.startByte || |frame| == 1 {
      return Fault, checksum;
    }
    var id := frame[1];
    var found := Find(RxIds(s.rxs), id);
    if found.None? {
      return Fault, checksum;
    }
    var i := found.value;
    var n := s.rxs[i].len as int;
    var pos: nat := 2;
    var data: seq<uint8> := [];
    while pos < n + 2
      invariant 2 <= pos <= n + 2 && pos <= |frame|
      invariant data == frame[2..pos]
      invariant checksum == Checksum(data)
    {
      if pos == |frame| {
        return Fault, checksum;
      }
      var byte := frame[pos];
      assert frame[2..pos + 1] == data + [byte];
      ChecksumSnoc(data, byte);
      data := data + [byte];
      checksum := Add8(checksum, byte);
      pos := pos + 1;
    }
    if pos == |frame| {
      return Fault, checksum;
    }
    st := Read(i, data, frame[pos], frame[pos + 1..]);
  }

  /** `rx()` as the source runs it: frame after frame, until the input runs
      out or a frame cannot be read, in which case the input is flushed. It
      makes the same callbacks as `Rx`. */
  method RxBytes(s: Server, input: seq<uint8>) returns (trace: seq<Dispatch>, remaining: seq<uint8>, flushed: bool)
    requires s.Valid() && s.RxLensFit()
    ensures RxOutcome(trace, remaining, flushed) == Rx(s, input)
  {
    trace := [];
    var pos: nat := 0;
    while pos < |input|
      invariant pos <= |input|
      invariant Rx(s, input) == Rx(s, input[pos..]).After(trace)
      decreases |input| - pos
    {
      var st, checksum := ReadFrameBytes(s, input[pos..]);
      if st.Fault? {
        remaining, flushed := [], true;
        return;
      }
      var owed := if st.check == checksum then [Dispatch(st.index, st.data)] else [];
      RxRead(s, input[pos..]);
      AfterAfter(Rx(s, st.rest), owed, trace);
      trace := trace + owed;
      pos := pos + |st.data| + 3;
      assert input[pos..] == st.rest;
    }
    remaining, flushed := [], false;
  }

  /** A frame read whole: `rx()` makes its callback when the checksum byte
      matches, then goes on with the rest of the input. */
  lemma RxRead(s: Server, input: seq<uint8>)
    requires s.Valid() && s.RxLensFit() && ReadFrame(s, input).Read?
    ensures var st := ReadFrame(s, input);
      Rx(s, input) == Rx(s, st.rest).After(
        if st.check == Checksum(st.data) then [Dispatch(st.index, st.data)] else [])
  {
  }

  /** Callbacks `b` and then `a` before those of `r`. */
  lemma AfterAfter(r: RxOutcome, a: seq<Dispatch>, b: seq<Dispatch>)
    ensures r.After(a).After(b) == r.After(b + a)
  {
    assert b + (a + r.trace) == (b + a) + r.trace;
  }

  /** Frame `f` names an RX entry, found by first match, whose registered
      length is the frame's data length. */
  predicate Recognised(s: Server, f: WireFrame)
  {
    var r := Find(RxIds(s.rxs), f.id);
    r.Some? && s.rxs[r.value].len as int == |f.data|
  }

  predicate AllRecognised(s: Server, fs: seq<WireFrame>)
  {
    forall k :: 0 <= k < |fs| ==> Recognised(s, fs[k])
  }

  /** The callback a receiver owes one recognised frame: its entry's callback
      with its data when the checksum byte matches the data, none otherwise. */
  function Owed(s: Server, f: WireFrame): seq<Dispatch>
    requires Recognised(s, f)
  {
    if f.check == Checksum(f.data) then [Dispatch(Find(RxIds(s.rxs), f.id).value, f.data)] else []
  }

  /** The callbacks a receiver owes a run of recognised frames, in order. */
  function Gated(s: Server, fs: seq<WireFrame>): seq<Dispatch>
    requires AllRecognised(s, fs)
  {
    if |fs| == 0 then [] else Owed(s, fs[0]) + Gated(s, fs[1..])
  }

  /** A recognised frame at the head of the input is read whole, and reading
      stops right after its checksum byte. */
  lemma ReadRecognised(s: Server, f: WireFrame, tail: seq<uint8>)
    requires s.Valid() && s.RxLensFit() && Recognised(s, f)
    ensures ReadFrame(s, WireBytes(s.startByte, f) + tail) ==
      Read(Find(RxIds(s.rxs), f.id).value, f.data, f.check, tail)
  {
    var input := WireBytes(s.startByte, f) + tail;
    var n := |f.data|;
    assert input[0] == s.startByte && input[1] == f.id;
    assert input[2..n + 2] == f.data;
    assert input[n + 2] == f.check;
    assert input[n + 3..] == tail;
  }

  /** One recognised frame at the head of the input: its callback runs exactly
      when its checksum byte matches, and either way decoding carries on with
      the byte after it, with no flush. */
  lemma RxOneFrame(s: Server, f: WireFrame, tail: seq<uint8>)
    requires s.Valid() && s.RxLensFit() && Recognised(s, f)
    ensures Rx(s, WireBytes(s.startByte, f) + tail) == Rx(s, tail).After(Owed(s, f))
  {
    ReadRecognised(s, f, tail);
    RxRead(s, WireBytes(s.startByte, f) + tail);
  }

  /** Recognised frames back to back, then anything: `rx()` runs the gated
      callbacks of those frames, in order, then goes on with what follows. */
  lemma {:induction false} RxFrames(s: Server, fs: seq<WireFrame>, tail: seq<uint8>)
    requires s.Valid() && s.RxLensFit() && AllRecognised(s, fs)
    ensures Rx(s, Serialize(s.startByte, fs) + tail) == Rx(s, tail).After(Gated(s, fs))
    decreases |fs|
  {
    if |fs| == 0 {
      assert Serialize(s.startByte, fs) + tail == tail;
    } else {
      var f := fs[0];
      var rest := Serialize(s.startByte, fs[1..]) + tail;
      assert Serialize(s.startByte, fs) + tail == WireBytes(s.startByte, f) + rest;
      RxFrames(s, fs[1..], tail);
      RxOneFrame(s, f, rest);
      AfterAfter(Rx(s, tail), Gated(s, fs[1..]), Owed(s, f));
      assert Gated(s, fs) == Owed(s, f) + Gated(s, fs[1..]);
    }
  }

  /** The input starts with something that breaks framing: a byte other than
      the start byte, a start byte with nothing after it, an unknown id, or a
      known id followed by too few bytes for its data and checksum. */
  predicate BrokenHead(s: Server, input: seq<uint8>)
  {
    && |input| > 0
    && (|| input[0] != s.startByte
        || |input| == 1
        || Find(RxIds(s.rxs), input[1]).None?
        || |input| < s.rxs[Find(RxIds(s.rxs), input[1]).value].len as int + 3)
  }

  /** Frames followed by a framing fault: the gated callbacks of the frames
      run, then the input is flushed and nothing after the fault is handed to
      any callback, not even frames that would have been valid. */
  lemma RxFramesThenFault(s: Server, fs: seq<WireFrame>, junk: seq<uint8>)
    requires s.Valid() && s.RxLensFit() && AllRecognised(s, fs) && BrokenHead(s, junk)
    ensures Rx(s, Serialize(s.startByte, fs) + junk) == RxOutcome(Gated(s, fs), [], true)
  {
    RxFrames(s, fs, junk);
    assert Rx(s, junk) == Aborted;
  }

  /** The heads `rx()` flushes on are exactly the broken ones. */
  lemma FaultIffBrokenHead(s: Server, input: seq<uint8>)
    requires s.Valid() && s.RxLensFit()
    ensures ReadFrame(s, input).Fault? <==> BrokenHead(s, input)
  {
  }

  /** `input` is the recognised frames `fs` followed by `junk`, which is
      either nothing or starts with a broken head. */
  predicate SplitsAs(s: Server, input: seq<uint8>, fs: seq<WireFrame>, junk: seq<uint8>)
  {
    && AllRecognised(s, fs)
    && input == Serialize(s.startByte, fs) + junk
    && (junk == [] || BrokenHead(s, junk))
  }

  /** Every input is a run of recognised frames, then either nothing or a
      broken head; `rx()` makes exactly the gated callbacks of those frames,
      in order, leaves no input behind, and flushes exactly when there is a
      broken head. So a callback runs only for a frame whose checksum byte
      matches its data, and a broken head ends all dispatching. */
  lemma {:induction false} RxDecomposes(s: Server, input: seq<uint8>)
    requires s.Valid() && s.RxLensFit()
    ensures exists fs, junk ::
      SplitsAs(s, input, fs, junk) && Rx(s, input) == RxOutcome(Gated(s, fs), [], junk != [])
    decreases |input|
  {
    var st := ReadFrame(s, input);
    if st.Idle? {
      assert SplitsAs(s, input, [], []);
    } else if st.Fault? {
      FaultIffBrokenHead(s, input);
      assert SplitsAs(s, input, [], input);
    } else {
      ReadLayout(s, input);
      var f := WireFrame(input[1], st.data, st.check);
      RxDecomposes(s, st.rest);
      var fs, junk :| SplitsAs(s, st.rest, fs, junk)
        && Rx(s, st.rest) == RxOutcome(Gated(s, fs), [], junk != []);
      ConsSplits(s, f, st.rest, fs, junk);
      ConsRx(s, f, st.rest, fs, junk != []);
      assert SplitsAs(s, input, [f] + fs, junk);
    }
  }

  /** A recognised frame in front of a decomposed input is one more frame of
      the decomposition. */
  lemma ConsSplits(s: Server, f: WireFrame, rest: seq<uint8>, fs: seq<WireFrame>, junk: seq<uint8>)
    requires Recognised(s, f) && SplitsAs(s, rest, fs, junk)
    ensures SplitsAs(s, WireBytes(s.startByte, f) + rest, [f] + fs, junk)
  {
    var head := WireBytes(s.startByte, f);
    GatedCons(s, f, fs);
    SerializeCons(s.startByte, f, fs);
    assert head + (Serialize(s.startByte, fs) + junk) == (head + Serialize(s.startByte, fs)) + junk;
  }

  /** A recognised frame in front of an input whose outcome is the gated
      callbacks of `fs` adds its own gated callback in front. */
  lemma ConsRx(s: Server, f: WireFrame, rest: seq<uint8>, fs: seq<WireFrame>, flushed: bool)
    requires s.Valid() && s.RxLensFit() && Recognised(s, f) && AllRecognised(s, fs)
    requires Rx(s, rest) == RxOutcome(Gated(s, fs), [], flushed)
    ensures AllRecognised(s, [f] + fs)
    ensures Rx(s, WireBytes(s.startByte, f) + rest) == RxOutcome(Gated(s, [f] + fs), [], flushed)
  {
    RxOneFrame(s, f, rest);
    GatedCons(s, f, fs);
  }

  lemma SerializeCons(start: uint8, f: WireFrame, fs: seq<WireFrame>)
    ensures Serialize(start, [f] + fs) == WireBytes(start, f) + Serialize(start, fs)
  {
    assert ([f] + fs)[1..] == fs;
  }

  lemma GatedCons(s: Server, f: WireFrame, fs: seq<WireFrame>)
    requires Recognised(s, f) && AllRecognised(s, fs)
    ensures AllRecognised(s, [f] + fs)
    ensures Gated(s, [f] + fs) == Owed(s, f) + Gated(s, fs)
  {
    assert ([f] + fs)[1..] == fs;
  }

  /** Every callback `rx()` makes is for an RX entry of the table and gets
      exactly that entry's registered number of data bytes. */
  lemma {:induction false} DispatchesFitTable(s: Server, input: seq<uint8>)
    requires s.Valid() && s.RxLensFit()
    ensures forall k :: 0 <= k < |Rx(s, input).trace| ==>
      var d := Rx(s, input).trace[k];
      d.index < |s.rxs| && |d.data| == s.rxs[d.index].len as int
    decreases |input|
  {
    var st := ReadFrame(s, input);
    if st.Read? {
      DispatchesFitTable(s, st.rest);
    }
  }

  /** A frame `ReadFrame` reads whole is a recognised frame followed by the
      rest of the input. */
  lemma ReadLayout(s: Server, input: seq<uint8>)
    requires s.Valid() && s.RxLensFit() && ReadFrame(s, input).Read?
    ensures var st := ReadFrame(s, input);
      var f := WireFrame(input[1], st.data, st.check);
      && Recognised(s, f)
      && Find(RxIds(s.rxs), f.id) == Some(st.index)
      && input == WireBytes(s.startByte, f) + st.rest
  {
    var st := ReadFrame(s, input);
    var n := |st.data|;
    assert input == input[..2] + input[2..n + 2] + [input[n + 2]] + input[n + 3..];
  }

  /** A run of whole recognised frames is decoded without a flush. */
  lemma FramedIsUnflushed(s: Server, fs: seq<WireFrame>)
    requires s.Valid() && s.RxLensFit() && AllRecognised(s, fs)
    ensures !Rx(s, Serialize(s.startByte, fs)).flushed
  {
    RxFrames(s, fs, []);
    assert Serialize(s.startByte, fs) + [] == Serialize(s.startByte, fs);
  }

  /** Input decoded without a flush is a run of whole recognised frames. */
  lemma {:induction false} UnflushedIsFramed(s: Server, input: seq<uint8>)
    requires s.Valid() && s.RxLensFit() && !Rx(s, input).flushed
    ensures exists fs :: AllRecognised(s, fs) && input == Serialize(s.startByte, fs)
    decreases |input|
  {
    if |input| == 0 {
      assert AllRecognised(s, []) && input == Serialize(s.startByte, []);
    } else {
      UnflushedRead(s, input);
      var st := ReadFrame(s, input);
      ReadLayout(s, input);
      var f := WireFrame(input[1], st.data, st.check);
      UnflushedIsFramed(s, st.rest);
      var fs :| AllRecognised(s, fs) && st.rest == Serialize(s.startByte, fs);
      GatedCons(s, f, fs);
      SerializeCons(s.startByte, f, fs);
      assert input == Serialize(s.startByte, [f] + fs);
    }
  }

  /** Non-empty input decoded without a flush starts with a frame read whole,
      and what follows it is decoded without a flush too. */
  lemma UnflushedRead(s: Server, input: seq<uint8>)
    requires s.Valid() && s.RxLensFit() && !Rx(s, input).flushed && |input| > 0
    ensures ReadFrame(s, input).Read? && !Rx(s, ReadFrame(s, input).rest).flushed
  {
  }

  /** `rx()` returns without flushing exactly when its input is a run of whole
      recognised frames, whatever their checksum bytes. */
  lemma UnflushedIffFramed(s: Server, input: seq<uint8>)
    requires s.Valid() && s.RxLensFit()
    ensures !Rx(s, input).flushed <==>
      exists fs :: AllRecognised(s, fs) && input == Serialize(s.startByte, fs)
  {
    if !Rx(s, input).flushed {
      UnflushedIsFramed(s, input);
    }
    if exists fs :: AllRecognised(s, fs) && input == Serialize(s.startByte, fs) {
      var fs :| AllRecognised(s, fs) && input == Serialize(s.startByte, fs);
      FramedIsUnflushed(s, fs);
    }
  }

  /** Frames as the encoder seals them pass the checksum gate: each one's
      callback runs once, with its data. */
  lemma {:induction false} GatedSealed(s: Server, fs: seq<WireFrame>)
    requires AllRecognised(s, fs)
    requires forall k :: 0 <= k < |fs| ==> fs[k].check == Checksum(fs[k].data)
    ensures |Gated(s, fs)| == |fs|
    ensures forall k :: 0 <= k < |fs| ==>
      Gated(s, fs)[k] == Dispatch(Find(RxIds(s.rxs), fs[k].id).value, fs[k].data)
    decreases |fs|
  {
    if |fs| > 0 {
      GatedSealed(s, fs[1..]);
    }
  }

  /** Round trip of one frame: the frame `tx_index` writes for `data`, read by
      a server with a matching RX registration and the same start byte, makes
      exactly one callback, with exactly `data`, and no flush. */
  lemma FrameRoundTrip(s: Server, id: uint8, data: seq<uint8>)
    requires s.Valid() && s.RxLensFit() && Recognised(s, Sealed(id, data))
    ensures Rx(s, WireBytes(s.startByte, Sealed(id, data))) ==
      RxOutcome([Dispatch(Find(RxIds(s.rxs), id).value, data)], [], false)
  {
    var bytes := WireBytes(s.startByte, Sealed(id, data));
    RxOneFrame(s, Sealed(id, data), []);
    assert bytes + [] == bytes;
  }

  /** Checksum sensitivity: change any one data byte or the checksum byte of a
      frame the encoder built, and `rx()` drops that frame without a flush and
      carries on with what follows. */
  lemma CorruptedFrameDropped(s: Server, id: uint8, data: seq<uint8>, pos: nat, v: uint8, tail: seq<uint8>)
    requires s.Valid() && s.RxLensFit() && Recognised(s, Sealed(id, data))
    requires 2 <= pos < |data| + 3 && v != WireBytes(s.startByte, Sealed(id, data))[pos]
    ensures Rx(s, WireBytes(s.startByte, Sealed(id, data))[pos := v] + tail) == Rx(s, tail)
  {
    var n := |data|;
    var sent := WireBytes(s.startByte, Sealed(id, data));
    var got := sent[pos := v];
    var g := WireFrame(id, got[2..n + 2], got[n + 2]);
    assert got == WireBytes(s.startByte, g);
    if pos < n + 2 {
      assert g.check == Checksum(data);
      ChecksumDetectsSingleByteChange(g.data, data, pos - 2);
    }
    RxOneFrame(s, g, tail);
  }

  /** Round trip of `tx()`: a receiver whose RX table matches every TX entry
      (same id, found by first match, with the same length) and which uses
      the same start byte, given exactly the bytes `tx()` writes, makes one
      callback per TX entry, in registration order, each with the data that
      entry sent, and returns without flushing. */
  lemma TxAllRoundTrip(tx: Server, rx: Server)
    requires tx.Valid() && tx.TxLensFit() && rx.Valid() && rx.RxLensFit()
    requires rx.startByte == tx.startByte
    requires forall k :: 0 <= k < |tx.txs| ==>
      Find(RxIds(rx.rxs), tx.txs[k].id).Some?
      && rx.rxs[Find(RxIds(rx.rxs), tx.txs[k].id).value].len == tx.txs[k].len
    ensures var r := Rx(rx, Serialize(tx.startByte, TxAllFrames(tx)));
      && !r.flushed
      && |r.trace| == |tx.txs|
      && forall k :: 0 <= k < |tx.txs| ==>
        r.trace[k] == Dispatch(Find(RxIds(rx.rxs), tx.txs[k].id).value, TxAllFrames(tx)[k].data)
  {
    var fs := TxAllFrames(tx);
    assert AllRecognised(rx, fs);
    var bytes := Serialize(tx.startByte, fs);
    RxFrames(rx, fs, []);
    assert bytes + [] == bytes;
    GatedSealed(rx, fs);
  }

  /** A worked exchange: RX id 0x05 with two data bytes, input
      `00 05 0A 14 1E`, makes one callback with `0A 14`. */
  lemma ExampleExchange()
    ensures var s := AddRx(New(Capacity(1, 1, 2, 2), [0, 0]), 0x05, 2, 0);
      Rx(s, [0x00, 0x05, 0x0A, 0x14, 0x1E]) == RxOutcome([Dispatch(0, [0x0A, 0x14])], [], false)
  {
    var s := AddRx(New(Capacity(1, 1, 2, 2), [0, 0]), 0x05, 2, 0);
    assert [0x0A, 0x14][..1] == [0x0A] && [0x0A][..0] == [];
    assert Checksum([0x0A, 0x14]) == 0x1E;
    FrameRoundTrip(s, 0x05, [0x0A, 0x14]);
    assert WireBytes(s.startByte, Sealed(0x05, [0x0A, 0x14])) == [0x00, 0x05, 0x0A, 0x14, 0x1E];
  }
}
