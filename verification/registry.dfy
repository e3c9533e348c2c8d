/**
 The message registry of a serial server: two append-only tables, one for
 transmitted (TX) and one for received (RX) messages, each entry holding a
 message id, a fixed data length and a callback; plus the configuration the
 server is built with (start byte, capacity macros) and the TX data buffer.
 */
module Registry {
  import opened Bytes

  datatype Option<T> = None | Some(value: T)

  /** The start byte a server uses when none is given to the constructor. */
  const DefaultStartByte: uint8 := 0x00

  /** The four capacity macros fixed when the library is compiled: the number
      of TX and RX table entries, and the size of the TX and RX data buffers. */
  datatype Capacity = Capacity(txMaxIds: nat, rxMaxIds: nat, txMaxLen: nat, rxMaxLen: nat)
  {
    /** The header refuses to compile unless every macro is at least 1. */
    predicate Valid()
    {
      txMaxIds >= 1 && rxMaxIds >= 1 && txMaxLen >= 1 && rxMaxLen >= 1
    }
  }

  /** A TX data packing callback. It receives the server's whole TX data
      buffer and may overwrite it; it is modelled by the bytes it writes from
      the start of the buffer, as a function of the contents it finds (see
      `Pack`). Returning a whole buffer's worth of bytes expresses any write. */
  type Packer = seq<uint8> -> seq<uint8>

  /** The TX buffer after a packing callback has run on it: the bytes the
      callback writes replace the start of the buffer, bytes past them keep
      their previous values, and the buffer keeps its size. */
  function Pack(f: Packer, buf: seq<uint8>): (buf': seq<uint8>)
    ensures |buf'| == |buf|
    ensures forall i :: 0 <= i < |buf| && i < |f(buf)| ==> buf'[i] == f(buf)[i]
    ensures forall i :: |f(buf)| <= i < |buf| ==> buf'[i] == buf[i]
  {
    var w := f(buf);
    if |w| >= |buf| then w[..|buf|] else w + buf[|w|..]
  }

  /** An RX data unpacking callback, known to the model only by name. A
      callback run by `rx()` is recorded by its entry's table index, which
      identifies this field. */
  type Unpacker = nat

  datatype TxEntry = TxEntry(id: uint8, len: uint8, pack: Packer)
  datatype RxEntry = RxEntry(id: uint8, len: uint8, unpack: Unpacker)

  /** The state of one server. `txData` is the TX data buffer that the packing
      callbacks fill and `tx_index` reads; it persists between transmissions. */
  datatype Server = Server(
    cap: Capacity,
    startByte: uint8,
    txs: seq<TxEntry>,
    rxs: seq<RxEntry>,
    txData: seq<uint8>)
  {
    /** The table counts are `uint8_t` and never exceed the table sizes; the
        TX buffer has its compile-time size. */
    predicate Valid()
    {
      && cap.Valid()
      && |txs| <= cap.txMaxIds && |txs| <= 255
      && |rxs| <= cap.rxMaxIds && |rxs| <= 255
      && |txData| == cap.txMaxLen
    }

    /** Every registered TX length fits the TX data buffer, which `tx_index`
        needs to stay within the buffer. */
    predicate TxLensFit()
    {
      forall i :: 0 <= i < |txs| ==> txs[i].len <= cap.txMaxLen
    }

    /** Every registered RX length fits the RX data buffer, which `rx` needs to
        stay within the buffer. */
    predicate RxLensFit()
    {
      forall i :: 0 <= i < |rxs| ==> rxs[i].len <= cap.rxMaxLen
    }
  }

  function TxIds(txs: seq<TxEntry>): (ids: seq<uint8>)
    ensures |ids| == |txs|
  {
    seq(|txs|, i requires 0 <= i < |txs| => txs[i].id)
  }

  function RxIds(rxs: seq<RxEntry>): (ids: seq<uint8>)
    ensures |ids| == |rxs|
  {
    seq(|rxs|, i requires 0 <= i < |rxs| => rxs[i].id)
  }

  /** The constructor: both tables empty, the start byte stored as given
      (0x00 by default). `txInit` stands for the TX buffer's initial contents,
      which the constructor does not set. */
  function New(cap: Capacity, txInit: seq<uint8>, startByte: uint8 := DefaultStartByte): (s: Server)
    requires cap.Valid()
    requires |txInit| == cap.txMaxLen
    ensures s.Valid() && s.TxLensFit() && s.RxLensFit()
    ensures |s.txs| == 0 && |s.rxs| == 0
    ensures s.startByte == startByte && s.cap == cap
  {
    Server(cap, startByte, [], [], txInit)
  }

  /** Built without a start byte, a server frames with 0x00 and any TX buffer
      of the configured size gives it valid, empty tables. */
  lemma NewDefault(cap: Capacity, txInit: seq<uint8>)
    requires cap.Valid() && |txInit| == cap.txMaxLen
    ensures New(cap, txInit).startByte == 0x00
    ensures New(cap, txInit).Valid() && New(cap, txInit).txs == [] && New(cap, txInit).rxs == []
  {
  }

  /** `add_tx`: the entry goes to index `num_tx` and the count grows by one.
      No capacity, length or duplicate-id check is made, so the caller must
      leave room in the table. */
  function AddTx(s: Server, id: uint8, len: uint8, pack: Packer): (s': Server)
    requires s.Valid() && |s.txs| < s.cap.txMaxIds && |s.txs| < 255
    ensures s'.Valid()
    ensures |s'.txs| == |s.txs| + 1
    ensures s'.txs[|s.txs|] == TxEntry(id, len, pack)
    ensures forall i :: 0 <= i < |s.txs| ==> s'.txs[i] == s.txs[i]
    ensures s'.rxs == s.rxs && s'.startByte == s.startByte && s'.cap == s.cap && s'.txData == s.txData
  {
    s.(txs := s.txs + [TxEntry(id, len, pack)])
  }

  /** `add_rx`: the entry goes to index `num_rx` and the count grows by one,
      with no capacity, length or duplicate-id check. */
  function AddRx(s: Server, id: uint8, len: uint8, unpack: Unpacker): (s': Server)
    requires s.Valid() && |s.rxs| < s.cap.rxMaxIds && |s.rxs| < 255
    ensures s'.Valid()
    ensures |s'.rxs| == |s.rxs| + 1
    ensures s'.rxs[|s.rxs|] == RxEntry(id, len, unpack)
    ensures forall i :: 0 <= i < |s.rxs| ==> s'.rxs[i] == s.rxs[i]
    ensures s'.txs == s.txs && s'.startByte == s.startByte && s'.cap == s.cap && s'.txData == s.txData
  {
    s.(rxs := s.rxs + [RxEntry(id, len, unpack)])
  }

  /** Linear search for `id` among the first `|ids|` table ids: the index of
      its first occurrence, or nothing when it is absent. */
  function Find(ids: seq<uint8>, id: uint8): (r: Option<nat>)
    ensures r.Some? ==> r.value < |ids| && ids[r.value] == id
    ensures r.Some? ==> forall j :: 0 <= j < r.value ==> ids[j] != id
    ensures r.None? <==> id !in ids
  {
    if |ids| == 0 then None
    else if ids[0] == id then Some(0)
    else match Find(ids[1..], id)
      case None => None
      case Some(i) => Some(i + 1)
  }

  /** Appending one id to the table changes no lookup of an id already
      present, and makes a new id found at the appended index. */
  lemma {:induction false} FindAppend(ids: seq<uint8>, x: uint8, id: uint8)
    ensures Find(ids + [x], id) ==
      if id in ids then Find(ids, id)
      else if id == x then Some(|ids|)
      else None
    decreases |ids|
  {
    if |ids| > 0 {
      assert (ids + [x])[1..] == ids[1..] + [x];
      if ids[0] != id {
        FindAppend(ids[1..], x, id);
      }
    }
  }

  /** After `add_tx`, `tx(id)` finds the same entry as before for every id that
      was already registered, and the new entry for a new id. */
  lemma AddTxLookup(s: Server, id: uint8, len: uint8, pack: Packer, x: uint8)
    requires s.Valid() && |s.txs| < s.cap.txMaxIds && |s.txs| < 255
    ensures Find(TxIds(AddTx(s, id, len, pack).txs), x) ==
      if x in TxIds(s.txs) then Find(TxIds(s.txs), x)
      else if x == id then Some(|s.txs|)
      else None
  {
    assert TxIds(AddTx(s, id, len, pack).txs) == TxIds(s.txs) + [id];
    FindAppend(TxIds(s.txs), id, x);
  }

  /** After `add_rx`, `rx` looks up the same entry as before for every id that
      was already registered, and the new entry for a new id. */
  lemma AddRxLookup(s: Server, id: uint8, len: uint8, unpack: Unpacker, x: uint8)
    requires s.Valid() && |s.rxs| < s.cap.rxMaxIds && |s.rxs| < 255
    ensures Find(RxIds(AddRx(s, id, len, unpack).rxs), x) ==
      if x in RxIds(s.rxs) then Find(RxIds(s.rxs), x)
      else if x == id then Some(|s.rxs|)
      else None
  {
    assert RxIds(AddRx(s, id, len, unpack).rxs) == RxIds(s.rxs) + [id];
    FindAppend(RxIds(s.rxs), id, x);
  }
}
