// `Session.read_message`: one header read, then payload reads until the
// announced length has arrived.  The device hands out a script of pieces; a
// read of an exhausted script, or of a piece larger than asked for, raises.
module Reader {
  import opened Bytes
  import opened Framing

  const CHUNK: nat := 16384

  type Pieces = seq<seq<byte>>

  datatype ReadResult = Data(bytes: seq<byte>) | UsbError

  datatype Outcome = Received(message: Message) | Nothing | Raised

  datatype Got<T> = Got(outcome: T, rest: Pieces)

  function DeviceRead(pieces: Pieces, size: nat): Got<ReadResult> {
    if pieces == [] then Got(UsbError, [])
    else if |pieces[0]| > size then Got(UsbError, pieces[1..])
    else Got(Data(pieces[0]), pieces[1..])
  }

  class Device {
    var pieces: Pieces

    method Read(size: nat) returns (r: ReadResult)
      modifies this
      ensures Got(r, pieces) == DeviceRead(old(pieces), size)
    {
      if pieces == [] {
        return UsbError;
      }
      var piece := pieces[0];
      pieces := pieces[1..];
      return if |piece| > size then UsbError else Data(piece);
    }
  }

  function Min(a: nat, b: nat): nat {
    if a < b then a else b
  }

  /** Payload reads, with `payload` so far and `rem` bytes to come. */
  function Collect(payload: seq<byte>, pieces: Pieces, rem: nat): Got<ReadResult>
    decreases |pieces|
  {
    if rem == 0 then Got(Data(payload), pieces) else
      var r := DeviceRead(pieces, Min(rem, CHUNK));
      if r.outcome.UsbError? then r
      else Collect(payload + r.outcome.bytes, r.rest, rem - |r.outcome.bytes|)
  }

  function ReadStep(pieces: Pieces): Got<Outcome> {
    var raw := DeviceRead(pieces, HEADER_SIZE);
    if raw.outcome.UsbError? then Got(Raised, raw.rest)
    else if |raw.outcome.bytes| != HEADER_SIZE then Got(Nothing, raw.rest)
    else
      var h := ParseHeader(raw.outcome.bytes);
      if h.magic != MAGIC then Got(Nothing, raw.rest)
      else
        var p := Collect([], raw.rest, h.length);
        if p.outcome.UsbError? then Got(Raised, p.rest)
        else Got(Received(Message(h.mtype, p.outcome.bytes)), p.rest)
  }

  method ReadMessage(dev: Device) returns (r: Outcome)
    modifies dev
    ensures Got(r, dev.pieces) == ReadStep(old(dev.pieces))
  {
    var raw := dev.Read(HEADER_SIZE);
    if raw.UsbError? {
      return Raised;
    }
    if |raw.bytes| != HEADER_SIZE {
      return Nothing;
    }
    var h := ParseHeader(raw.bytes);
    if h.magic != MAGIC {
      return Nothing;
    }
    ghost var afterHeader := dev.pieces;
    var payload: seq<byte>, rem: nat := [], h.length;
    while rem > 0
      invariant Collect([], afterHeader, h.length) == Collect(payload, dev.pieces, rem)
      decreases |dev.pieces|
    {
      var c := dev.Read(Min(rem, CHUNK));
      if c.UsbError? {
        return Raised;
      }
      payload := payload + c.bytes;
      rem := rem - |c.bytes|;
    }
    return Received(Message(h.mtype, payload));
  }

  // ------------------------------------------------------------- round trip

  /** `chunks` deliver `payload` in order, each at most what the reader asks for; a chunk may be empty. */
  ghost predicate Chopped(chunks: Pieces, payload: seq<byte>)
    decreases |chunks|
  {
    if payload == [] then chunks == [] else
      && chunks != []
      && |chunks[0]| <= Min(|payload|, CHUNK)
      && chunks[0] == payload[..|chunks[0]|]
      && Chopped(chunks[1..], payload[|chunks[0]|..])
  }

  datatype Delivery = Delivery(message: Message, chunks: Pieces)

  ghost predicate Deliverable(d: Delivery) {
    Sendable(d.message) && Chopped(d.chunks, d.message.payload)
  }

  ghost function PiecesOf(ds: seq<Delivery>): Pieces
    requires forall i :: 0 <= i < |ds| ==> Deliverable(ds[i])
  {
    if ds == [] then []
    else
      assert Deliverable(ds[0]);
      [Hdr(ds[0].message.mtype, |ds[0].message.payload|)] + ds[0].chunks + PiecesOf(ds[1..])
  }

  /** What `n` calls of `read_message` return. */
  function ReadSteps(n: nat, pieces: Pieces): Got<seq<Outcome>> {
    if n == 0 then Got([], pieces) else
      var first := ReadStep(pieces);
      var others := ReadSteps(n - 1, first.rest);
      Got([first.outcome] + others.outcome, others.rest)
  }

  lemma {:induction false} CollectChopped(before: seq<byte>, chunks: Pieces, payload: seq<byte>, tail: Pieces)
    requires Chopped(chunks, payload)
    ensures Collect(before, chunks + tail, |payload|) == Got(Data(before + payload), tail)
    decreases |chunks|
  {
    if payload == [] {
      assert chunks + tail == tail && before + payload == before;
    } else {
      var c := chunks[0];
      assert (chunks + tail)[1..] == chunks[1..] + tail;
      CollectChopped(before + c, chunks[1..], payload[|c|..], tail);
      assert before + c + payload[|c|..] == before + payload;
    }
  }

  /** However the payloads are chopped up, the reader returns exactly the messages sent. */
  lemma {:induction false} ReadReturnsWhatWasSent(ds: seq<Delivery>, tail: Pieces)
    requires forall i :: 0 <= i < |ds| ==> Deliverable(ds[i])
    ensures ReadSteps(|ds|, PiecesOf(ds) + tail)
         == Got(seq(|ds|, i requires 0 <= i < |ds| => Received(ds[i].message)), tail)
  {
    hide ReadStep, Chopped;
    if ds == [] {
      assert PiecesOf(ds) + tail == tail;
    } else {
      var d := ds[0];
      assert Deliverable(d);
      var h := Hdr(d.message.mtype, |d.message.payload|);
      var others := PiecesOf(ds[1..]) + tail;
      ReadOne(d, others);
      assert PiecesOf(ds) + tail == [h] + d.chunks + others;
      ReadReturnsWhatWasSent(ds[1..], tail);
      var expected := seq(|ds|, i requires 0 <= i < |ds| => Received(ds[i].message));
      assert expected == [Received(d.message)]
        + seq(|ds[1..]|, i requires 0 <= i < |ds[1..]| => Received(ds[1..][i].message));
    }
  }

  lemma ReadOne(d: Delivery, tail: Pieces)
    requires Deliverable(d)
    ensures ReadStep([Hdr(d.message.mtype, |d.message.payload|)] + d.chunks + tail) == Got(Received(d.message), tail)
  {
    var h := Hdr(d.message.mtype, |d.message.payload|);
    var pieces := [h] + d.chunks + tail;
    assert pieces[0] == h && pieces[1..] == d.chunks + tail;
    ParseOfHdr(d.message.mtype, |d.message.payload|);
    CollectChopped([], d.chunks, d.message.payload, tail);
    assert [] + d.message.payload == d.message.payload;
  }

  // ------------------------------------------------------------- exactness

  /** The pieces a successful collection consumed are a chopping of what it added. */
  lemma {:induction false} CollectIsChopped(before: seq<byte>, pieces: Pieces, rem: nat)
    requires Collect(before, pieces, rem).outcome.Data?
    ensures var r := Collect(before, pieces, rem);
      && |r.rest| <= |pieces| && r.rest == pieces[|pieces| - |r.rest|..]
      && |r.outcome.bytes| == |before| + rem && before <= r.outcome.bytes
      && Chopped(pieces[..|pieces| - |r.rest|], r.outcome.bytes[|before|..])
    decreases |pieces|
  {
    hide Chopped;
    var r := Collect(before, pieces, rem);
    if rem == 0 {
      NothingChopped();
    } else {
      var c := pieces[0];
      CollectIsChopped(before + c, pieces[1..], rem - |c|);
      var used := |pieces| - |r.rest|;
      BehindFirst(pieces, used);
      BehindPart(before, c, r.outcome.bytes);
      ChoppedCons(pieces[..used], r.outcome.bytes[|before|..]);
    }
  }

  lemma NothingChopped()
    ensures Chopped([], [])
  {
  }

  lemma ChoppedCons(chunks: Pieces, payload: seq<byte>)
    requires chunks != [] && payload != [] && |chunks[0]| <= Min(|payload|, CHUNK)
    requires chunks[0] <= payload && Chopped(chunks[1..], payload[|chunks[0]|..])
    ensures Chopped(chunks, payload)
  {
  }

  lemma BehindFirst(pieces: Pieces, used: nat)
    requires 1 <= used <= |pieces|
    ensures pieces[1..][used - 1..] == pieces[used..] && pieces[1..][..used - 1] == pieces[..used][1..]
  {
  }

  lemma BehindPart(before: seq<byte>, c: seq<byte>, all: seq<byte>)
    requires before + c <= all
    ensures before <= all
    ensures var added := all[|before|..];
      c <= added && added[..|c|] == c && added[|c|..] == all[|before + c|..]
  {
  }

  /** The first `used` pieces are a frame of the message `m`: a header piece, of which the check
      word may be anything, and a chopping of the payload. */
  ghost predicate IsFrame(pieces: Pieces, used: nat, m: Message) {
    && 1 <= used <= |pieces|
    && |pieces[0]| == HEADER_SIZE
    && (var h := ParseHeader(pieces[0]); h.magic == MAGIC && h.length == |m.payload| && h.mtype == m.mtype)
    && Chopped(pieces[1..used], m.payload)
  }

  /** Whatever arrives: a message is returned exactly when the pieces begin with a frame of it,
      and then exactly that frame is consumed. */
  lemma ReadIsExact(pieces: Pieces, used: nat, m: Message)
    requires used <= |pieces|
    ensures ReadStep(pieces) == Got(Received(m), pieces[used..]) <==> IsFrame(pieces, used, m)
  {
    if IsFrame(pieces, used, m) {
      assert pieces[1..] == pieces[1..used] + pieces[used..];
      CollectChopped([], pieces[1..used], m.payload, pieces[used..]);
      assert [] + m.payload == m.payload;
    }
    if ReadStep(pieces) == Got(Received(m), pieces[used..]) {
      var h := ParseHeader(pieces[0]);
      CollectIsChopped([], pieces[1..], h.length);
      assert pieces[1..][..used - 1] == pieces[1..used];
      assert m.payload[0..] == m.payload;
    }
  }

  /** A payload may come in one piece exactly if it has at most 16384 bytes, and the header only
      in one of 16; a larger piece than was asked for raises. */
  lemma LargestPieces(m: Message, tail: Pieces)
    requires Sendable(m) && m.payload != []
    ensures ReadStep([Hdr(m.mtype, |m.payload|), m.payload] + tail) ==
      if |m.payload| <= 16384 then Got(Received(m), tail) else Got(Raised, tail)
    ensures forall raw: seq<byte> {:trigger [raw]} :: |raw| > 16 ==> ReadStep([raw] + tail) == Got(Raised, tail)
  {
    var n := |m.payload|;
    var h := Hdr(m.mtype, n);
    var pieces := [h, m.payload] + tail;
    ParseOfHdr(m.mtype, n);
    assert pieces[0] == h && pieces[1..] == [m.payload] + tail && pieces[1..][1..] == tail;
    assert [] + m.payload == m.payload;
    assert Collect(m.payload, tail, 0) == Got(Data(m.payload), tail);
    forall raw: seq<byte> {:trigger [raw]} | |raw| > 16 ensures ReadStep([raw] + tail) == Got(Raised, tail) {
      assert ([raw] + tail)[1..] == tail;
    }
  }

  /** A short or foreign header is dropped alone; nothing else goes unanswered. */
  lemma NothingIsDroppedHeader(pieces: Pieces)
    ensures ReadStep(pieces).outcome.Nothing? <==>
      pieces != [] && (|pieces[0]| < HEADER_SIZE ||
                       (|pieces[0]| == HEADER_SIZE && ParseHeader(pieces[0]).magic != MAGIC))
    ensures ReadStep(pieces).outcome.Nothing? ==> ReadStep(pieces).rest == pieces[1..]
  {
  }
}
