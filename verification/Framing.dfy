// The dongle's message format: a 16-byte header, then the payload.
module Framing {
  import opened Wrappers
  import opened Bytes

  const MAGIC: u32 := 0x55AA55AA
  const HEADER_SIZE: nat := 16

  // Message types, and the metadata in front of a video payload's stream.
  const PLUGGED: u32 := 0x02
  const UNPLUGGED: u32 := 0x04
  const VIDEO_DATA: u32 := 0x06
  const AUDIO_DATA: u32 := 0x07
  const COMMAND: u32 := 0x08
  const HEARTBEAT: u32 := 0xAA
  const VIDEO_METADATA: nat := 20

  datatype Message = Message(mtype: u32, payload: seq<byte>)

  // `struct.pack` refuses a longer length.
  predicate Sendable(m: Message) {
    |m.payload| < TWO_32
  }

  // `(t ^ -1) & 0xFFFFFFFF`, on unbounded integers: `t ^ -1` is `-t - 1`.
  function Complement(t: u32): u32 {
    var x: int := t;
    (-x - 1) % TWO_32
  }

  function Hdr(t: u32, n: u32): (s: seq<byte>)
    ensures |s| == HEADER_SIZE
  {
    Pack(MAGIC) + Pack(n) + Pack(t) + Pack(Complement(t))
  }

  function Encode(m: Message): seq<byte>
    requires Sendable(m)
  {
    Hdr(m.mtype, |m.payload|) + m.payload
  }

  function EncodeAll(ms: seq<Message>): seq<byte>
    requires forall m :: m in ms ==> Sendable(m)
  {
    if ms == [] then [] else EncodeAll(ms[..|ms| - 1]) + Encode(ms[|ms| - 1])
  }

  // ------------------------------------------------------------- decoding

  datatype Header = Header(magic: u32, length: u32, mtype: u32, check: u32)

  function ParseHeader(raw: seq<byte>): Header
    requires |raw| == HEADER_SIZE
  {
    Header(Unpack(raw[..4]), Unpack(raw[4..8]), Unpack(raw[8..12]), Unpack(raw[12..]))
  }

  lemma ParseOfHdr(t: u32, n: u32)
    ensures ParseHeader(Hdr(t, n)) == Header(MAGIC, n, t, Complement(t))
  {
    var h := Hdr(t, n);
    assert h[..4] == Pack(MAGIC) && h[4..8] == Pack(n) && h[8..12] == Pack(t) && h[12..] == Pack(Complement(t));
    UnpackPack(MAGIC);
    UnpackPack(n);
    UnpackPack(t);
    UnpackPack(Complement(t));
  }

  /** The header, byte by byte: the magic word 0x55AA55AA and then length and type, all with the
      low byte first, and last the type's bytes inverted one by one. */
  lemma HeaderBytes(t: u32, n: u32)
    ensures var h := Hdr(t, n);
      && |h| == 16
      && h[..4] == [0xAA, 0x55, 0xAA, 0x55]
      && IsWord(h[4..8], n)
      && IsWord(h[8..12], t)
      && forall i :: 0 <= i < 4 ==> h[12..][i] as int == 0xFF - h[8..12][i] as int
  {
    hide IsWord, Pack, Complement;
    var h := Hdr(t, n);
    MagicBytes();
    assert h[..4] == Pack(MAGIC) && h[4..8] == Pack(n) && h[8..12] == Pack(t) && h[12..] == Pack(Complement(t));
    WordsAreLittleEndian(h[4..8], n);
    WordsAreLittleEndian(h[8..12], t);
    InvertedBytes(t);
  }

  lemma InvertedBytes(t: u32)
    ensures forall i :: 0 <= i < 4 ==> Pack(Complement(t))[i] as int == 0xFF - Pack(t)[i] as int
  {
    var s := Pack(t);
    var inverted: seq<byte> := [255 - s[0], 255 - s[1], 255 - s[2], 255 - s[3]];
    UnpackPack(t);
    assert Unpack(inverted) == Complement(t);
    PackUnpack(inverted);
  }

  /** What `ParseHeader` reads is where `HeaderBytes` says. */
  lemma ParsedWords(raw: seq<byte>)
    requires |raw| == 16
    ensures var h := ParseHeader(raw);
      && IsWord(raw[..4], h.magic) && IsWord(raw[4..8], h.length)
      && IsWord(raw[8..12], h.mtype) && IsWord(raw[12..], h.check)
    ensures ParseHeader(raw).magic == MAGIC <==> raw[..4] == [0xAA, 0x55, 0xAA, 0x55]
  {
    hide IsWord, Pack, Unpack;
    var h := ParseHeader(raw);
    WordsAreLittleEndian(raw[..4], h.magic);
    WordsAreLittleEndian(raw[4..8], h.length);
    WordsAreLittleEndian(raw[8..12], h.mtype);
    WordsAreLittleEndian(raw[12..], h.check);
    PackUnpack(raw[..4]);
    MagicBytes();
  }

  lemma MagicBytes()
    ensures Pack(MAGIC) == [0xAA, 0x55, 0xAA, 0x55]
    ensures Unpack([0xAA, 0x55, 0xAA, 0x55]) == MAGIC
  {
  }

  /** The check word is the bitwise complement of the type. */
  lemma ComplementOfType(t: u32)
    ensures t + Complement(t) == 0xFFFFFFFF
    ensures Complement(Complement(t)) == t
  {
  }

  datatype Decoded = Decoded(messages: seq<Message>, rest: seq<byte>)

  /** The messages at the front of a byte stream, up to the first incomplete or foreign frame. */
  function Decode(b: seq<byte>): Decoded {
    if |b| < HEADER_SIZE then Decoded([], b) else
      var h := ParseHeader(b[..HEADER_SIZE]);
      var end := HEADER_SIZE + h.length;
      if h.magic != MAGIC || |b| < end then Decoded([], b) else
        var d := Decode(b[end..]);
        Decoded([Message(h.mtype, b[HEADER_SIZE..end])] + d.messages, d.rest)
  }

  lemma DecodeFrame(m: Message, tail: seq<byte>)
    requires Sendable(m)
    ensures Decode(Encode(m) + tail) == Decoded([m] + Decode(tail).messages, Decode(tail).rest)
  {
    var b := Encode(m) + tail;
    assert b[..HEADER_SIZE] == Hdr(m.mtype, |m.payload|);
    ParseOfHdr(m.mtype, |m.payload|);
    assert b[HEADER_SIZE..HEADER_SIZE + |m.payload|] == m.payload;
    assert b[HEADER_SIZE + |m.payload|..] == tail;
  }

  /** Whole frames decode to the messages they encode, whatever follows them. */
  lemma {:induction false} DecodeFrames(ms: seq<Message>, tail: seq<byte>)
    requires forall m :: m in ms ==> Sendable(m)
    ensures Decode(EncodeAll(ms) + tail) == Decoded(ms + Decode(tail).messages, Decode(tail).rest)
    decreases |ms|
  {
    hide Encode, Decode;
    if ms == [] {
      assert EncodeAll(ms) + tail == tail;
      assert ms + Decode(tail).messages == Decode(tail).messages;
    } else {
      var front, last := ms[..|ms| - 1], ms[|ms| - 1];
      assert EncodeAll(ms) + tail == EncodeAll(front) + (Encode(last) + tail);
      DecodeFrames(front, Encode(last) + tail);
      DecodeFrame(last, tail);
      assert front + ([last] + Decode(tail).messages) == ms + Decode(tail).messages;
    }
  }

  /** `b` is frames of `ms`, in whatever way their check words read. */
  ghost predicate AreFrames(b: seq<byte>, ms: seq<Message>)
    decreases |ms|
  {
    if ms == [] then b == []
    else
      var n := |ms[0].payload|;
      && |b| >= 16 + n
      && b[..4] == [0xAA, 0x55, 0xAA, 0x55] && IsWord(b[4..8], n) && IsWord(b[8..12], ms[0].mtype)
      && b[16..16 + n] == ms[0].payload
      && AreFrames(b[16 + n..], ms[1..])
  }

  /** `b` begins with no whole frame. */
  ghost predicate NoFrame(b: seq<byte>) {
    |b| < 16 || b[..4] != [0xAA, 0x55, 0xAA, 0x55] || forall n: nat :: IsWord(b[4..8], n) ==> |b| < 16 + n
  }

  /** Any bytes are split into the frames they begin with and a rest that begins with none. */
  lemma {:induction false} DecodeIsExact(b: seq<byte>)
    ensures var d := Decode(b); var cut := |b| - |d.rest|;
      cut >= 0 && b[cut..] == d.rest && AreFrames(b[..cut], d.messages) && NoFrame(d.rest)
    decreases |b|
  {
    hide Decode, AreFrames, NoFrame, ParseHeader;
    var d := Decode(b);
    var m, end := DecodeOne(b);
    if end == 0 {
      NothingIsFramed(b);
    } else {
      DecodeIsExact(b[end..]);
      var cut := |b| - |d.rest|;
      assert b[end..][..cut - end] == b[end..cut] && b[cut..] == b[end..][cut - end..];
      FramesCons(b[..cut], m, end, Decode(b[end..]).messages, b);
    }
  }

  /** The first frame ends at `end`, or there is none and `end` is 0. */
  lemma DecodeOne(b: seq<byte>) returns (m: Message, end: nat)
    ensures end == 0 ==> Decode(b) == Decoded([], b) && NoFrame(b)
    ensures end > 0 ==>
      && end == 16 + |m.payload| <= |b|
      && b[..4] == [0xAA, 0x55, 0xAA, 0x55] && IsWord(b[4..8], |m.payload|) && IsWord(b[8..12], m.mtype)
      && b[16..end] == m.payload
      && Decode(b) == Decoded([m] + Decode(b[end..]).messages, Decode(b[end..]).rest)
  {
    hide IsWord, ParseHeader;
    m, end := Message(0, []), 0;
    if |b| >= HEADER_SIZE {
      var raw := b[..HEADER_SIZE];
      var h := ParseHeader(raw);
      ParsedWords(raw);
      assert raw[..4] == b[..4] && raw[4..8] == b[4..8] && raw[8..12] == b[8..12];
      if |b| < HEADER_SIZE + h.length {
        forall n: nat | IsWord(b[4..8], n) ensures n == h.length { SameWord(b[4..8], n, h.length); }
      } else if h.magic == MAGIC {
        end := HEADER_SIZE + h.length;
        m := Message(h.mtype, b[HEADER_SIZE..end]);
      }
    }
  }

  lemma NothingIsFramed(b: seq<byte>)
    ensures b[|b| - |b|..] == b && AreFrames(b[..0], [])
  {
  }

  /** `f`, a first part of `b`, is the frame of `m` and then the frames of `ms`. */
  lemma FramesCons(f: seq<byte>, m: Message, end: nat, ms: seq<Message>, b: seq<byte>)
    requires end == 16 + |m.payload| <= |f| && f <= b
    requires b[..4] == [0xAA, 0x55, 0xAA, 0x55] && IsWord(b[4..8], |m.payload|) && IsWord(b[8..12], m.mtype)
    requires b[16..end] == m.payload && AreFrames(b[end..|f|], ms)
    ensures AreFrames(f, [m] + ms)
  {
    hide IsWord;
    assert f[..4] == b[..4] && f[4..8] == b[4..8] && f[8..12] == b[8..12];
    assert f[16..end] == b[16..end] && f[end..] == b[end..|f|];
    assert ([m] + ms)[1..] == ms;
  }

  lemma SameWord(s: seq<byte>, v: int, w: int)
    requires IsWord(s, v) && IsWord(s, w)
    ensures v == w
  {
  }

  /** A header still owed its payload is not yet a message. */
  lemma DecodeOwed(m: Message)
    requires Sendable(m) && m.payload != []
    ensures Decode(Hdr(m.mtype, |m.payload|)) == Decoded([], Hdr(m.mtype, |m.payload|))
  {
    var h := Hdr(m.mtype, |m.payload|);
    assert h[..HEADER_SIZE] == h;
    ParseOfHdr(m.mtype, |m.payload|);
  }

  // ------------------------------------------------------------- files

  datatype File = File(name: seq<byte>, content: seq<byte>)

  /** The payload of `send_file`: two length-prefixed fields, the name with its final NUL. */
  function FilePayload(f: File): seq<byte>
    requires |f.name| + 1 < TWO_32 && |f.content| < TWO_32
  {
    Pack(|f.name| + 1) + (f.name + [0]) + Pack(|f.content|) + f.content
  }

  /** The payload, field by field: the name's length with its NUL, the name, the NUL, the
      content's length, the content. */
  lemma FileLayout(f: File)
    requires |f.name| + 1 < TWO_32 && |f.content| < TWO_32
    ensures var p, k := FilePayload(f), 4 + |f.name|;
      && |p| == k + 5 + |f.content|
      && IsWord(p[..4], |f.name| + 1) && p[4..k] == f.name && p[k] == 0
      && IsWord(p[k + 1..k + 5], |f.content|) && p[k + 5..] == f.content
  {
    hide Pack, IsWord;
    var p, k := FilePayload(f), 4 + |f.name|;
    assert p[..4] == Pack(|f.name| + 1) && p[k + 1..k + 5] == Pack(|f.content|);
    WordsAreLittleEndian(p[..4], |f.name| + 1);
    WordsAreLittleEndian(p[..4], |f.content|);
  }

  /** Reads the two fields back by their prefixes. */
  function ParseFile(p: seq<byte>): Option<File> {
    if |p| < 4 then None else
      var n: int := Unpack(p[..4]);
      if n == 0 || |p| < 4 + n + 4 || p[4 + n - 1] != 0 then None else
        var size: int := Unpack(p[4 + n..8 + n]);
        if |p| != 8 + n + size then None
        else Some(File(p[4..4 + n - 1], p[8 + n..]))
  }

  lemma FileRoundTrip(f: File)
    requires |f.name| + 1 < TWO_32 && |f.content| < TWO_32
    ensures ParseFile(FilePayload(f)) == Some(f)
  {
    var p, n := FilePayload(f), |f.name| + 1;
    UnpackPack(n);
    UnpackPack(|f.content|);
    assert p[..4] == Pack(n);
    assert p[4..4 + n - 1] == f.name;
    assert p[4 + n..8 + n] == Pack(|f.content|);
    assert p[8 + n..] == f.content;
  }

  /** `ParseFile` accepts nothing but such payloads. */
  lemma FileParsesOnlyPayloads(p: seq<byte>)
    requires ParseFile(p).Some?
    ensures var f := ParseFile(p).value;
      |f.name| + 1 < TWO_32 && |f.content| < TWO_32 && FilePayload(f) == p
  {
    var f := ParseFile(p).value;
    var n: int := Unpack(p[..4]);
    PackUnpack(p[..4]);
    PackUnpack(p[4 + n..8 + n]);
    assert p == p[..4] + (p[4..4 + n - 1] + [0]) + p[4 + n..8 + n] + p[8 + n..];
  }
}
