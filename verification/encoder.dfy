/**
 The wire frame and the transmit side of the server.

 A frame on the wire is the start byte, the message id, the message's data
 bytes and one checksum byte. Transmitting a registered entry first runs its
 packing callback on the TX data buffer and then writes the frame built from
 the first `len` bytes of that buffer.
 */
module Encoder {
  import opened Bytes
  import opened Registry

  /** A frame as it appears on the wire, with whatever checksum byte it
      carries (a frame read off a noisy line may carry a wrong one). */
  datatype WireFrame = WireFrame(id: uint8, data: seq<uint8>, check: uint8)

  /** The byte layout of one frame: `[start][id][data...][check]`. */
  function WireBytes(start: uint8, f: WireFrame): seq<uint8>
  {
    [start, f.id] + f.data + [f.check]
  }

  /** The bytes of several frames sent back to back. */
  function Serialize(start: uint8, fs: seq<WireFrame>): seq<uint8>
  {
    if |fs| == 0 then [] else WireBytes(start, fs[0]) + Serialize(start, fs[1..])
  }

  lemma {:induction false} SerializeSnoc(start: uint8, fs: seq<WireFrame>, f: WireFrame)
    ensures Serialize(start, fs + [f]) == Serialize(start, fs) + WireBytes(start, f)
    decreases |fs|
  {
    if |fs| == 0 {
      assert fs + [f] == [f];
    } else {
      assert (fs + [f])[1..] == fs[1..] + [f];
      SerializeSnoc(start, fs[1..], f);
    }
  }

  lemma TakeAll<T>(xs: seq<T>)
    ensures xs[..|xs|] == xs
  {
  }

  lemma TakeSnoc<T>(xs: seq<T>, k: nat)
    requires k < |xs|
    ensures xs[..k + 1] == xs[..k] + [xs[k]]
  {
  }

  /** The frame the encoder builds for `data`: its checksum byte is the
      checksum of the data. */
  function Sealed(id: uint8, data: seq<uint8>): WireFrame
  {
    WireFrame(id, data, Checksum(data))
  }

  /** The frame `tx_index` sends for entry `e` when the TX buffer holds `buf`
      before the call: the first `len` bytes of the buffer after packing. */
  function TxFrame(e: TxEntry, buf: seq<uint8>): WireFrame
    requires e.len as int <= |buf|
  {
    Sealed(e.id, Pack(e.pack, buf)[..e.len])
  }

  /** The TX buffer after the packing callbacks of entries `0..k-1` have run,
      in registration order, on the server's current buffer. */
  function BufferAfter(s: Server, k: nat): (buf: seq<uint8>)
    requires k <= |s.txs|
    ensures |buf| == |s.txData|
  {
    if k == 0 then s.txData else Pack(s.txs[k - 1].pack, BufferAfter(s, k - 1))
  }

  /** The frames `tx()` sends, one per registered TX entry, in registration
      order. */
  function TxAllFrames(s: Server): (fs: seq<WireFrame>)
    requires s.Valid() && s.TxLensFit()
    ensures |fs| == |s.txs|
    ensures forall k :: 0 <= k < |fs| ==> fs[k].id == s.txs[k].id && |fs[k].data| == s.txs[k].len as int
  {
    seq(|s.txs|, k requires 0 <= k < |s.txs| => TxFrame(s.txs[k], BufferAfter(s, k)))
  }

  /** The bytes `tx()` has written once entries `0..k-1` are sent. */
  function SentBytes(s: Server, k: nat): seq<uint8>
    requires s.Valid() && s.TxLensFit() && k <= |s.txs|
  {
    if k == 0 then []
    else SentBytes(s, k - 1) + WireBytes(s.startByte, TxFrame(s.txs[k - 1], BufferAfter(s, k - 1)))
  }

  /** What `tx()` has written after `k` entries is the first `k` of its
      frames, back to back. */
  lemma {:induction false} SentBytesSerialize(s: Server, k: nat)
    requires s.Valid() && s.TxLensFit() && k <= |s.txs|
    ensures SentBytes(s, k) == Serialize(s.startByte, TxAllFrames(s)[..k])
    decreases k
  {
    if k > 0 {
      SentBytesSerialize(s, k - 1);
      var frames := TxAllFrames(s);
      TakeSnoc(frames, k - 1);
      SerializeSnoc(s.startByte, frames[..k - 1], frames[k - 1]);
    }
  }

  /** `tx_index(i)`: run entry `i`'s packing callback, then write the start byte,
      the id, the first `len` buffer bytes and their running 8-bit sum. */
  method TxIndex(s: Server, i: nat) returns (s': Server, out: seq<uint8>)
    requires s.Valid() && s.TxLensFit() && i < |s.txs|
    ensures s' == s.(txData := Pack(s.txs[i].pack, s.txData))
    ensures |out| == s.txs[i].len as int + 3
    ensures out[0] == s.startByte && out[1] == s.txs[i].id
    ensures out[2..|out| - 1] == s'.txData[..s.txs[i].len]
    ensures out[|out| - 1] == Sum(out[2..|out| - 1]) % 256
    ensures out == WireBytes(s.startByte, TxFrame(s.txs[i], s.txData))
  {
    var e := s.txs[i];
    var buf := Pack(e.pack, s.txData);
    s' := s.(txData := buf);
    out := [s.startByte, e.id];
    var checksum: uint8 := 0x00;
    var d: nat := 0;
    while d < e.len as int
      invariant d <= e.len as int
      invariant out == [s.startByte, e.id] + buf[..d]
      invariant checksum == Checksum(buf[..d])
    {
      var byte := buf[d];
      out := out + [byte];
      assert buf[..d + 1] == buf[..d] + [byte];
      ChecksumSnoc(buf[..d], byte);
      checksum := Add8(checksum, byte);
      d := d + 1;
    }
    out := out + [checksum];
    assert out[2..|out| - 1] == buf[..e.len];
    ChecksumIsSumMod256(buf[..e.len]);
  }

  /** `i` is the first table position holding `id`. */
  predicate FirstIndexOf(ids: seq<uint8>, id: uint8, i: nat)
  {
    i < |ids| && ids[i] == id && forall j :: 0 <= j < i ==> ids[j] != id
  }

  /** `tx(id)`: nothing is written when `id` is not registered for TX;
      otherwise the frame of the first entry with that id is sent. */
  method TxId(s: Server, id: uint8) returns (s': Server, out: seq<uint8>)
    requires s.Valid() && s.TxLensFit()
    ensures id !in TxIds(s.txs) ==> s' == s && out == []
    ensures id in TxIds(s.txs) ==> exists i: nat ::
      (FirstIndexOf(TxIds(s.txs), id, i)
       && s' == s.(txData := Pack(s.txs[i].pack, s.txData))
       && out == WireBytes(s.startByte, TxFrame(s.txs[i], s.txData)))
  {
    var found := Find(TxIds(s.txs), id);
    match found
    case None =>
      s', out := s, [];
    case Some(i) =>
      s', out := TxIndex(s, i);
      assert FirstIndexOf(TxIds(s.txs), id, i);
  }

  /** `tx_index(k)` on a server whose TX buffer holds `buf`: the buffer the
      packing callback leaves and the frame written, and nothing else. */
  method SendEntry(s: Server, k: nat, buf: seq<uint8>) returns (buf': seq<uint8>, frame: seq<uint8>)
    requires s.Valid() && s.TxLensFit() && k < |s.txs| && |buf| == |s.txData|
    ensures buf' == Pack(s.txs[k].pack, buf)
    ensures frame == WireBytes(s.startByte, TxFrame(s.txs[k], buf))
  {
    var cur;
    cur, frame := TxIndex(s.(txData := buf), k);
    buf' := cur.txData;
  }

  /** `tx()`: every registered entry is sent once, in registration order, each
      packing callback seeing the buffer the previous one left. */
  method TxAll(s: Server) returns (s': Server, out: seq<uint8>)
    requires s.Valid() && s.TxLensFit()
    ensures s' == s.(txData := BufferAfter(s, |s.txs|))
    ensures out == Serialize(s.startByte, TxAllFrames(s))
  {
    var buf := s.txData;
    out := [];
    var k: nat := 0;
    while k < |s.txs|
      invariant k <= |s.txs|
      invariant buf == BufferAfter(s, k)
      invariant out == SentBytes(s, k)
    {
      var buf', frame := SendEntry(s, k, buf);
      out := out + frame;
      buf := buf';
      k := k + 1;
    }
    SentBytesSerialize(s, k);
    TakeAll(TxAllFrames(s));
    s' := s.(txData := buf);
  }
}
