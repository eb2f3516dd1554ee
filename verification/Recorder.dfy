// The recording side of the session: dispatch of received messages into the
// video file, the PCM buffers and the delivery metrics of 5-second windows.
module Recorder {
  import opened Wrappers
  import opened Bytes
  import opened Framing

  const WINDOW: real := 5.0

  datatype Arrival = Arrival(message: Message, at: real)

  // What the main loop reads, one after the other: messages, and resets of the dongle.
  datatype Input = Received(message: Message) | Reset

  ghost function Messages(arrivals: seq<Arrival>): (ms: seq<Message>)
    ensures |ms| == |arrivals|
  {
    seq(|arrivals|, i requires 0 <= i < |arrivals| => arrivals[i].message)
  }

  ghost function ReceivedIn(inputs: seq<Input>): seq<Message> {
    if inputs == [] then []
    else
      var x := inputs[|inputs| - 1];
      ReceivedIn(inputs[..|inputs| - 1]) + if x.Received? then [x.message] else []
  }

  // One logged line: counts of PCM messages, PCM bytes, longest silence in ms, video messages.
  datatype Line = Line(pcm: nat, bytes: nat, maxGap: int, video: nat, span: real)

  /** The arrivals are those of the messages among the inputs. */
  ghost predicate Arrived(inputs: seq<Input>, arrivals: seq<Arrival>) {
    ReceivedIn(inputs) == Messages(arrivals)
  }

  lemma ArrivedNext(inputs: seq<Input>, arrivals: seq<Arrival>, x: Arrival)
    requires Arrived(inputs, arrivals)
    ensures Arrived(inputs + [Received(x.message)], arrivals + [x])
  {
    assert (inputs + [Received(x.message)])[..|inputs|] == inputs;
  }

  lemma ArrivedAndReset(inputs: seq<Input>, arrivals: seq<Arrival>)
    requires Arrived(inputs, arrivals)
    ensures Arrived(inputs + [Reset], arrivals)
  {
    assert (inputs + [Reset])[..|inputs|] == inputs;
  }

  // ------------------------------------------------------------- messages

  predicate IsVideo(m: Message) {
    m.mtype == VIDEO_DATA
  }

  predicate IsAudio(m: Message) {
    m.mtype == AUDIO_DATA && |m.payload| >= 12
  }

  function Body(m: Message): seq<byte>
    requires IsAudio(m)
  {
    m.payload[12..]
  }

  /** Playable audio, not a one-byte audio command. */
  predicate IsPcm(m: Message) {
    IsAudio(m) && |Body(m)| > 4
  }

  function DecodeType(m: Message): u32
    requires IsAudio(m)
  {
    Unpack(m.payload[..4])
  }

  function AudioType(m: Message): u32
    requires IsAudio(m)
  {
    Unpack(m.payload[8..12])
  }

  /** Where the fields of an audio message lie: three words, of which the second is a volume
      that nothing depends on, and the body. */
  lemma AudioLayout(d: seq<byte>, vol: seq<byte>, a: seq<byte>, body: seq<byte>)
    requires |d| == |vol| == |a| == 4
    ensures var m := Message(0x07, d + vol + a + body);
      && IsAudio(m) && IsWord(d, DecodeType(m)) && IsWord(a, AudioType(m)) && Body(m) == body
      && (IsPcm(m) <==> |body| > 4)
  {
    hide Unpack, IsWord;
    var m := Message(0x07, d + vol + a + body);
    assert m.payload[..4] == d && m.payload[8..12] == a && m.payload[12..] == body;
    WordsAreLittleEndian(d, DecodeType(m));
    WordsAreLittleEndian(a, AudioType(m));
  }

  // ------------------------------------------------------------- labels

  // `str(n)`.
  function Str(n: int): string {
    if n < 0 then "-" + Decimal(-n) else Decimal(n)
  }

  // `struct.unpack("<b", body)[0]`.
  function Signed(b: byte): int {
    if b < 128 then b else (b as int) - 256
  }

  // `AUDIO_CMD.get(c, str(c))`.
  function AudioCommandLabel(c: int): string {
    match c
    case 1 => "OutputStart" case 2 => "OutputStop" case 3 => "InputConfig"
    case 4 => "PhonecallStart" case 5 => "PhonecallStop"
    case 6 => "NaviStart" case 7 => "NaviStop"
    case 8 => "SiriStart" case 9 => "SiriStop"
    case 10 => "MediaStart" case 11 => "MediaStop"
    case 12 => "AlertStart" case 13 => "AlertStop"
    case _ => Str(c)
  }

  // `CMD`.
  function CommandLabel(v: int): Option<string> {
    match v
    case 1002 => Some("wifiConnect") case 1003 => Some("scanningDevice")
    case 1004 => Some("deviceFound") case 1005 => Some("deviceNotFound")
    case 1006 => Some("connectFailed") case 1007 => Some("btConnected")
    case 1008 => Some("btDisconnected") case 1009 => Some("wifiConnected")
    case 1010 => Some("wifiDisconnected") case 1011 => Some("btPairStart")
    case 1012 => Some("wifiPair")
    case _ => None
  }

  const DISCONNECTS: set<int> := {1008, 1010}

  // `PHONE.get(v, str(v))`.
  function PhoneLabel(v: int): string {
    match v
    case 1 => "AndroidMirror" case 3 => "CarPlay" case 4 => "iPhoneMirror"
    case 5 => "AndroidAuto" case 6 => "HiCar"
    case _ => Str(v)
  }

  lemma SignedIsTwosComplement(b: byte)
    ensures -128 <= Signed(b) <= 127 && (b as int - Signed(b)) % 256 == 0
  {
  }

  lemma {:induction false} StrIsInjective(v: int, w: int)
    requires Str(v) == Str(w)
    ensures v == w
  {
    StrBegins(v);
    StrBegins(w);
    if v < 0 {
      assert Str(v)[1..] == Decimal(-v) && Str(w)[1..] == Decimal(-w);
      ParseDecimalOfDecimal(-v);
      ParseDecimalOfDecimal(-w);
    } else {
      ParseDecimalOfDecimal(v);
      ParseDecimalOfDecimal(w);
    }
  }

  lemma StrBegins(v: int)
    ensures var s := Str(v); s != [] && if v < 0 then s[0] == '-' else IsDigit(s[0])
  {
  }

  /** The disconnects are the commands that are labelled so. */
  lemma DisconnectsAreLabelled(v: int)
    ensures v in DISCONNECTS <==>
      CommandLabel(v) == Some("btDisconnected") || CommandLabel(v) == Some("wifiDisconnected")
    ensures CommandLabel(v).Some? <==> 1002 <= v <= 1012
  {
  }

  datatype Format = Format(rate: nat, channels: nat, bits: nat)

  // `FORMATS.get(d)`.
  function FormatOf(d: nat): Option<Format> {
    match d
    case 1 => Some(Format(44100, 2, 16)) case 2 => Some(Format(44100, 2, 16))
    case 3 => Some(Format(8000, 1, 16)) case 4 => Some(Format(48000, 2, 16))
    case 5 => Some(Format(16000, 1, 16)) case 6 => Some(Format(24000, 1, 16))
    case 7 => Some(Format(16000, 2, 16))
    case _ => None
  }

  // The labels and formats in the order of their codes; other codes are shown as numbers.

  lemma AudioCommandsInOrder(v: int)
    ensures
      var names := ["OutputStart", "OutputStop", "InputConfig", "PhonecallStart", "PhonecallStop", "NaviStart",
                    "NaviStop", "SiriStart", "SiriStop", "MediaStart", "MediaStop", "AlertStart", "AlertStop"];
      AudioCommandLabel(v) == if 1 <= v <= |names| then names[v - 1] else Str(v)
  {
    hide Str;
  }

  lemma CommandsInOrder(v: int)
    ensures
      var names := ["wifiConnect", "scanningDevice", "deviceFound", "deviceNotFound", "connectFailed", "btConnected",
                    "btDisconnected", "wifiConnected", "wifiDisconnected", "btPairStart", "wifiPair"];
      CommandLabel(v) == if 1002 <= v < 1002 + |names| then Some(names[v - 1002]) else None
  {
  }

  lemma PhonesInOrder(v: int)
    ensures
      var names := ["AndroidMirror", "2", "CarPlay", "iPhoneMirror", "AndroidAuto", "HiCar"];
      PhoneLabel(v) == if 1 <= v <= |names| then names[v - 1] else Str(v)
  {
    assert Str(2) == "2";
  }

  lemma FormatsInOrder(d: nat)
    ensures
      var hertz := [44100, 44100, 8000, 48000, 16000, 24000, 16000];
      FormatOf(d) == if 1 <= d <= |hertz| then Some(Format(hertz[d - 1], if d in {3, 5, 6} then 1 else 2, 16)) else None
  {
  }

  // ------------------------------------------------- what one message says

  predicate IsCommand(m: Message) {
    m.mtype == COMMAND && |m.payload| >= 4
  }

  function CommandValue(m: Message): u32
    requires |m.payload| >= 4
  {
    Unpack(m.payload[..4])
  }

  function PluggedValue(m: Message): int {
    if |m.payload| >= 4 then CommandValue(m) else -1
  }

  predicate Plugs(x: Input) {
    x.Received? && x.message.mtype == PLUGGED
  }

  predicate Unplugs(x: Input) {
    match x
    case Reset => true
    case Received(m) => m.mtype == UNPLUGGED || (IsCommand(m) && CommandValue(m) in DISCONNECTS)
  }

  /** The phone state an input announces, if it announces one. */
  function PhoneOf(x: Input): Option<Option<string>> {
    if Plugs(x) then Some(Some(PhoneLabel(PluggedValue(x.message))))
    else if Unplugs(x) then Some(None)
    else None
  }

  /** The command a message reports, if it is a known one. */
  function CommandIn(m: Message): Option<string> {
    if IsCommand(m) then CommandLabel(CommandValue(m)) else None
  }

  function CommandOf(x: Input): Option<string> {
    match x
    case Reset => None
    case Received(m) => CommandIn(m)
  }

  /** The event an input is shown as, if it is one. */
  function EventOf(x: Input): Option<string> {
    match x
    case Reset => Some("dongle reset")
    case Received(m) =>
      if IsAudio(m) && |Body(m)| == 1 then Some("audio:" + AudioCommandLabel(Signed(Body(m)[0])))
      else if m.mtype == PLUGGED then Some("PLUGGED " + PhoneLabel(PluggedValue(m)))
      else if m.mtype == UNPLUGGED then Some("UNPLUGGED")
      else CommandIn(m)
  }

  /** `i` is the last input about which `f` says something. */
  ghost predicate SaidLast<T>(h: seq<Input>, f: Input -> Option<T>, i: nat) {
    i < |h| && f(h[i]).Some? && forall j :: i < j < |h| ==> f(h[j]) == None
  }

  /** `value` is what the last input about which `f` says something has said, and `initial`
      if there is none. */
  ghost predicate IsLatest<T>(h: seq<Input>, f: Input -> Option<T>, initial: T, value: T) {
    || (exists i: nat :: SaidLast(h, f, i) && f(h[i]) == Some(value))
    || (value == initial && forall i :: 0 <= i < |h| ==> f(h[i]) == None)
  }

  function Override<T>(said: Option<T>, value: T): T {
    if said.Some? then said.value else value
  }

  lemma LatestNext<T>(h: seq<Input>, f: Input -> Option<T>, initial: T, value: T, x: Input)
    requires IsLatest(h, f, initial, value)
    ensures IsLatest(h + [x], f, initial, Override(f(x), value))
  {
    var h' := h + [x];
    if f(x).Some? {
      assert SaidLast(h', f, |h|);
    } else if i: nat :| SaidLast(h, f, i) && f(h[i]) == Some(value) {
      assert SaidLast(h', f, i);
    }
  }

  /** Input `i` is `Plugged`, and none after it is `Plugged`, `Unplugged`, a disconnect command
      or a reset. */
  ghost predicate PluggedLast(h: seq<Input>, i: nat) {
    && i < |h| && Plugs(h[i])
    && forall j :: i < j < |h| ==> !Plugs(h[j]) && !Unplugs(h[j])
  }

  /** A phone is shown exactly when the last input among `Plugged`, `Unplugged`, the two
      disconnect commands and resets is `Plugged`, and then under its label. */
  lemma PhoneShown(h: seq<Input>, phone: Option<string>)
    requires IsLatest(h, PhoneOf, None, phone)
    ensures phone.Some? <==> exists i: nat :: PluggedLast(h, i)
    ensures forall i: nat :: PluggedLast(h, i) ==> phone == Some(PhoneLabel(PluggedValue(h[i].message)))
  {
    hide PhoneLabel, PluggedValue, Unplugs;
    forall i: nat | PluggedLast(h, i) ensures phone == Some(PhoneLabel(PluggedValue(h[i].message))) {
      assert PhoneOf(h[i]).Some?;
      var k: nat :| SaidLast(h, PhoneOf, k) && PhoneOf(h[k]) == Some(phone);
      assert i == k;
    }
    if phone.Some? {
      var k: nat :| SaidLast(h, PhoneOf, k) && PhoneOf(h[k]) == Some(phone);
      assert PluggedLast(h, k);
    }
  }

  /** What an input says, by the kind and the bytes of its message. */
  lemma SaidByBytes(m: Message)
    ensures var x, t, p := Received(m), m.mtype, m.payload;
      && (t == 2 && |p| < 4 ==> PhoneOf(x) == Some(Some("-1")) && EventOf(x) == Some("PLUGGED -1"))
      && (t == 2 && |p| >= 4 ==> forall v: u32 :: IsWord(p[..4], v) ==>
            PhoneOf(x) == Some(Some(PhoneLabel(v))) && EventOf(x) == Some("PLUGGED " + PhoneLabel(v)))
      && (t == 4 ==> PhoneOf(x) == Some(None) && EventOf(x) == Some("UNPLUGGED"))
      && (t == 7 && |p| == 13 ==> EventOf(x) == Some("audio:" + AudioCommandLabel(Signed(p[12]))))
      && (t == 8 && |p| >= 4 ==> forall v: u32 :: IsWord(p[..4], v) ==>
            && CommandOf(x) == EventOf(x) == CommandLabel(v)
            && PhoneOf(x) == if v == 1008 || v == 1010 then Some(None) else None)
      && (t != 8 || |p| < 4 ==> CommandOf(x) == None)
      && (t !in {2, 4, 8} || (t == 8 && |p| < 4) ==> PhoneOf(x) == None)
      && (t !in {2, 4, 7, 8} || (t == 7 && |p| != 13) || (t == 8 && |p| < 4) ==> EventOf(x) == None)
  {
    hide Unpack, IsWord, CommandLabel, AudioCommandLabel, PhoneLabel;
    var p := m.payload;
    MinusOne();
    assert IsAudio(m) ==> Body(m) == p[12..];
    if |p| >= 4 {
      forall v: u32 | IsWord(p[..4], v) ensures Unpack(p[..4]) == v { WordsAreLittleEndian(p[..4], v); }
    }
  }

  lemma MinusOne()
    ensures PhoneLabel(-1) == "-1" && "PLUGGED " + "-1" == "PLUGGED -1"
  {
    assert Decimal(1) == "1";
  }

  /** What is shown right behind an input: what the input says, and where it says nothing, what
      was shown before it. */
  lemma ShownBehind(h: seq<Input>, phone: Option<string>, lastCmd: string, lastEvent: string, x: Input)
    requires StatusKept(h + [x], phone, lastCmd, lastEvent)
    ensures match x
      case Reset => phone == None && lastEvent == "dongle reset" && IsLatest(h, CommandOf, "", lastCmd)
      case Received(m) =>
        && (if PhoneOf(x).Some? then PhoneOf(x) == Some(phone) else IsLatest(h, PhoneOf, None, phone))
        && (if CommandOf(x).Some? then CommandOf(x) == Some(lastCmd) else IsLatest(h, CommandOf, "", lastCmd))
        && (if EventOf(x).Some? then EventOf(x) == Some(lastEvent) else IsLatest(h, EventOf, "", lastEvent))
  {
    LatestIs(h, PhoneOf, None, phone, x);
    LatestIs(h, CommandOf, "", lastCmd, x);
    LatestIs(h, EventOf, "", lastEvent, x);
  }

  lemma LatestIs<T>(h: seq<Input>, f: Input -> Option<T>, initial: T, value: T, x: Input)
    requires IsLatest(h + [x], f, initial, value)
    ensures if f(x).Some? then value == f(x).value else IsLatest(h, f, initial, value)
  {
    var h' := h + [x];
    assert h'[|h|] == x && forall j :: 0 <= j < |h| ==> h'[j] == h[j];
    if i: nat :| SaidLast(h', f, i) && f(h'[i]) == Some(value) {
      assert i < |h| ==> SaidLast(h, f, i);
    }
  }

  // ------------------------------------------------------------- stream keys

  // `"d%d-a%d" % (d, a)`.
  function Key(d: nat, a: nat): string {
    "d" + Decimal(d) + "-a" + Decimal(a)
  }

  ghost predicate IsKey(k: string) {
    exists d: nat, a: nat :: k == Key(d, a)
  }

  // `key.split("-")[0]`.
  function BeforeDash(s: string): string {
    if s == [] || s[0] == '-' then [] else [s[0]] + BeforeDash(s[1..])
  }

  lemma {:induction false} BeforeDashOfKey(s: string, t: string)
    requires forall i :: 0 <= i < |s| ==> s[i] != '-'
    ensures BeforeDash(s + "-" + t) == s
  {
    if s != [] {
      assert (s + "-" + t)[1..] == s[1..] + "-" + t;
      BeforeDashOfKey(s[1..], t);
    }
  }

  /** `int(key.split("-")[0][1:])` gives back the decode type, and the audio type stands behind it. */
  lemma DecodeTypeOfKey(d: nat, a: nat)
    ensures var s := BeforeDash(Key(d, a));
      && s != [] && s[0] == 'd' && (forall i :: 1 <= i < |s| ==> IsDigit(s[i])) && ParseDecimal(s[1..]) == d
      && Key(d, a) == s + "-a" + Decimal(a)
  {
    var s := "d" + Decimal(d);
    assert Key(d, a) == s + "-" + ("a" + Decimal(a));
    BeforeDashOfKey(s, "a" + Decimal(a));
    assert s[1..] == Decimal(d);
    ParseDecimalOfDecimal(d);
  }

  /** Two streams never share a buffer. */
  lemma KeyIsInjective(d: nat, a: nat, d': nat, a': nat)
    requires Key(d, a) == Key(d', a')
    ensures d == d' && a == a'
  {
    DecodeTypeOfKey(d, a);
    DecodeTypeOfKey(d', a');
    var n := |Decimal(d)| + 3;
    assert Key(d, a)[n..] == Decimal(a) && Key(d', a')[n..] == Decimal(a');
    ParseDecimalOfDecimal(a);
    ParseDecimalOfDecimal(a');
  }

  // ------------------------------------------------------------- reference

  ghost function PcmCount(h: seq<Arrival>): nat {
    if h == [] then 0 else PcmCount(h[..|h| - 1]) + if IsPcm(h[|h| - 1].message) then 1 else 0
  }

  ghost function PcmBytes(h: seq<Arrival>): nat {
    if h == [] then 0
    else PcmBytes(h[..|h| - 1]) + if IsPcm(h[|h| - 1].message) then |Body(h[|h| - 1].message)| else 0
  }

  ghost function VideoCount(h: seq<Arrival>): nat {
    if h == [] then 0 else VideoCount(h[..|h| - 1]) + if IsVideo(h[|h| - 1].message) then 1 else 0
  }

  ghost function VideoBytes(h: seq<Arrival>): nat {
    if h == [] then 0
    else VideoBytes(h[..|h| - 1]) + if IsVideo(h[|h| - 1].message) then |h[|h| - 1].message.payload| else 0
  }

  ghost function AudioCount(h: seq<Arrival>): nat {
    if h == [] then 0 else AudioCount(h[..|h| - 1]) + if IsAudio(h[|h| - 1].message) then 1 else 0
  }

  ghost function VideoStream(h: seq<Arrival>): seq<byte> {
    if h == [] then []
    else
      var m := h[|h| - 1].message;
      VideoStream(h[..|h| - 1]) + if IsVideo(m) && |m.payload| > VIDEO_METADATA then m.payload[VIDEO_METADATA..] else []
  }

  ghost predicate InStream(m: Message, d: nat, a: nat) {
    IsPcm(m) && DecodeType(m) == d && AudioType(m) == a
  }

  /** The PCM bodies of one stream, in order of arrival. */
  ghost function Stream(h: seq<Arrival>, d: nat, a: nat): seq<byte> {
    if h == [] then []
    else
      var m := h[|h| - 1].message;
      Stream(h[..|h| - 1], d, a) + if InStream(m, d, a) then Body(m) else []
  }

  ghost function PcmTimes(h: seq<Arrival>): seq<real> {
    if h == [] then []
    else PcmTimes(h[..|h| - 1]) + if IsPcm(h[|h| - 1].message) then [h[|h| - 1].at] else []
  }

  /** The largest step between neighbours, and 0 if none is positive. */
  ghost function LargestGap(ts: seq<real>): (g: real)
    ensures g >= 0.0
    ensures forall i :: 0 <= i < |ts| - 1 ==> ts[i + 1] - ts[i] <= g
    ensures g == 0.0 || exists i :: 0 <= i < |ts| - 1 && ts[i + 1] - ts[i] == g
  {
    if |ts| < 2 then 0.0
    else
      var n := |ts| - 1;
      var g := LargestGap(ts[..n]);
      var last := ts[n] - ts[n - 1];
      assert last > g ==> ts[(n - 1) + 1] - ts[n - 1] == last;
      if last > g then last else g
  }

  /** The audio messages of one stream, PCM or not. */
  ghost function StreamCount(h: seq<Arrival>, d: nat, a: nat): nat {
    if h == [] then 0
    else
      var m := h[|h| - 1].message;
      StreamCount(h[..|h| - 1], d, a) + if IsAudio(m) && DecodeType(m) == d && AudioType(m) == a then 1 else 0
  }

  /** The totals of two histories one after the other, cut wherever one likes. */
  lemma {:induction false} HistoriesAdd(h: seq<Arrival>, h': seq<Arrival>)
    ensures PcmCount(h + h') == PcmCount(h) + PcmCount(h') && PcmBytes(h + h') == PcmBytes(h) + PcmBytes(h')
    ensures VideoCount(h + h') == VideoCount(h) + VideoCount(h') && VideoBytes(h + h') == VideoBytes(h) + VideoBytes(h')
    ensures AudioCount(h + h') == AudioCount(h) + AudioCount(h')
    ensures VideoStream(h + h') == VideoStream(h) + VideoStream(h') && PcmTimes(h + h') == PcmTimes(h) + PcmTimes(h')
    decreases |h'|
  {
    if h' == [] {
      assert h + h' == h;
    } else {
      var front, x := h'[..|h'| - 1], h'[|h'| - 1];
      assert h' == front + [x] && h + h' == h + front + [x];
      HistoriesAdd(h, front);
      HistoryExtends(h + front, x);
      HistoryExtends(front, x);
    }
  }

  lemma {:induction false} StreamsAdd(h: seq<Arrival>, h': seq<Arrival>, d: nat, a: nat)
    ensures Stream(h + h', d, a) == Stream(h, d, a) + Stream(h', d, a)
    ensures StreamCount(h + h', d, a) == StreamCount(h, d, a) + StreamCount(h', d, a)
    decreases |h'|
  {
    if h' == [] {
      assert h + h' == h;
    } else {
      var front, x := h'[..|h'| - 1], h'[|h'| - 1];
      assert h' == front + [x] && h + h' == h + front + [x];
      StreamsAdd(h, front, d, a);
      StreamExtends(h + front, x, d, a);
      StreamExtends(front, x, d, a);
      StreamCountExtends(h + front, x, d, a);
      StreamCountExtends(front, x, d, a);
    }
  }

  /** What one arrival adds, by the type and the bytes of its message. */
  lemma OneArrival(x: Arrival)
    ensures var t, p := x.message.mtype, x.message.payload;
      && VideoCount([x]) == (if t == 6 then 1 else 0)
      && VideoBytes([x]) == (if t == 6 then |p| else 0)
      && VideoStream([x]) == (if t == 6 && |p| > 20 then p[20..] else [])
      && AudioCount([x]) == (if t == 7 && |p| >= 12 then 1 else 0)
      && PcmCount([x]) == (if t == 7 && |p| > 16 then 1 else 0)
      && PcmBytes([x]) == (if t == 7 && |p| > 16 then |p| - 12 else 0)
      && PcmTimes([x]) == (if t == 7 && |p| > 16 then [x.at] else [])
  {
    hide Unpack;
    HistoryExtends([], x);
    assert [] + [x] == [x];
  }

  lemma OneInStream(x: Arrival, d: nat, a: nat)
    ensures var t, p := x.message.mtype, x.message.payload;
      && StreamCount([x], d, a) == (if t == 7 && |p| >= 12 && IsWord(p[..4], d) && IsWord(p[8..12], a) then 1 else 0)
      && Stream([x], d, a) == (if t == 7 && |p| > 16 && IsWord(p[..4], d) && IsWord(p[8..12], a) then p[12..] else [])
  {
    hide Unpack, IsWord;
    var t, p := x.message.mtype, x.message.payload;
    if t == 7 && |p| >= 12 {
      SameWord(p[..4], d, DecodeType(x.message));
      SameWord(p[8..12], a, AudioType(x.message));
    }
    StreamExtends([], x, d, a);
    StreamCountExtends([], x, d, a);
    assert [] + [x] == [x];
  }

  lemma SameWord(s: seq<byte>, v: nat, w: u32)
    requires |s| == 4 && w == Unpack(s)
    ensures IsWord(s, v) <==> v == w
  {
  }

  // ------------------------------------------------------------- log lines

  ghost function SumPcm(ls: seq<Line>): nat {
    if ls == [] then 0 else SumPcm(ls[..|ls| - 1]) + ls[|ls| - 1].pcm
  }

  ghost function SumBytes(ls: seq<Line>): nat {
    if ls == [] then 0 else SumBytes(ls[..|ls| - 1]) + ls[|ls| - 1].bytes
  }

  ghost function SumVideo(ls: seq<Line>): nat {
    if ls == [] then 0 else SumVideo(ls[..|ls| - 1]) + ls[|ls| - 1].video
  }

  ghost function LargestLogged(ls: seq<Line>): (g: int)
    ensures g >= 0
  {
    if ls == [] then 0
    else
      var g := LargestLogged(ls[..|ls| - 1]);
      if ls[|ls| - 1].maxGap > g then ls[|ls| - 1].maxGap else g
  }

  // `int(x * 1000)` for a gap, which is never negative.
  function Millis(x: real): (ms: int)
    ensures 0.0 <= 1000.0 * x - ms as real < 1.0
  {
    (x * 1000.0).Floor
  }

  lemma MillisOfZero()
    ensures Millis(0.0) == 0
  {
  }

  lemma LineCounts(ls: seq<Line>, l: Line)
    ensures SumPcm(ls + [l]) == SumPcm(ls) + l.pcm
    ensures SumBytes(ls + [l]) == SumBytes(ls) + l.bytes
    ensures SumVideo(ls + [l]) == SumVideo(ls) + l.video
    ensures LargestLogged(ls + [l]) == if l.maxGap > LargestLogged(ls) then l.maxGap else LargestLogged(ls)
  {
    assert (ls + [l])[..|ls|] == ls;
  }

  /** Bytes in all the buffers together. */
  ghost function Buffered(buffers: map<string, seq<byte>>): nat {
    if buffers == map[] then 0
    else
      var k :| k in buffers;
      |buffers[k]| + Buffered(buffers - {k})
  }

  lemma {:induction false} BufferedSplit(buffers: map<string, seq<byte>>, k: string)
    requires k in buffers
    ensures Buffered(buffers) == |buffers[k]| + Buffered(buffers - {k})
    decreases |buffers|
  {
    var j :| j in buffers && Buffered(buffers) == |buffers[j]| + Buffered(buffers - {j});
    if j != k {
      assert |buffers - {j}| < |buffers| by { assert buffers == (buffers - {j})[j := buffers[j]]; }
      assert |buffers - {k}| < |buffers| by { assert buffers == (buffers - {k})[k := buffers[k]]; }
      BufferedSplit(buffers - {j}, k);
      BufferedSplit(buffers - {k}, j);
      assert buffers - {j} - {k} == buffers - {k} - {j};
    }
  }

  lemma BufferedExtend(buffers: map<string, seq<byte>>, k: string, body: seq<byte>)
    ensures var before := if k in buffers then buffers[k] else [];
      Buffered(buffers[k := before + body]) == Buffered(buffers) + |body|
  {
    var before := if k in buffers then buffers[k] else [];
    var after := buffers[k := before + body];
    BufferedSplit(after, k);
    assert after - {k} == buffers - {k};
    if k in buffers {
      BufferedSplit(buffers, k);
    } else {
      assert buffers - {k} == buffers;
    }
  }

  /** The largest silence of `times` is among the lines, of which the largest is `logged`, or
      in the open window, which has seen `gapMax`. */
  ghost predicate GapKept(times: seq<real>, gapMax: real, lastPcm: Option<real>, logged: int) {
    && 0.0 <= gapMax <= LargestGap(times)
    && lastPcm == (if times == [] then None else Some(times[|times| - 1]))
    && Millis(LargestGap(times)) == (if Millis(gapMax) > logged then Millis(gapMax) else logged)
  }

  lemma GapExtends(times: seq<real>, gapMax: real, lastPcm: Option<real>, logged: int, now: real)
    requires GapKept(times, gapMax, lastPcm, logged) && logged >= 0
    ensures var g := if lastPcm.Some? && now - lastPcm.value > gapMax then now - lastPcm.value else gapMax;
      GapKept(times + [now], g, Some(now), logged)
  {
    hide Millis, LargestGap;
    LargestGapExtends(times, now);
    var g := if lastPcm.Some? && now - lastPcm.value > gapMax then now - lastPcm.value else gapMax;
    MillisMonotone(g, gapMax);
    MillisMonotone(LargestGap(times), g);
    MillisMonotone(LargestGap(times + [now]), LargestGap(times));
  }

  lemma LargestGapExtends(times: seq<real>, now: real)
    ensures LargestGap(times + [now]) ==
      if times != [] && now - times[|times| - 1] > LargestGap(times)
      then now - times[|times| - 1] else LargestGap(times)
  {
    assert (times + [now])[..|times|] == times;
  }

  lemma MillisMonotone(x: real, y: real)
    ensures x >= y ==> Millis(x) >= Millis(y)
    ensures y >= x ==> Millis(y) >= Millis(x)
  {
  }

  /** Each buffer holds exactly its stream, and there are no other buffers with bytes in them. */
  ghost predicate HoldsStreams(buffers: map<string, seq<byte>>, h: seq<Arrival>) {
    && (forall d: nat, a: nat :: Stream(h, d, a) == Buffer(buffers, Key(d, a)))
    && (forall k :: k in buffers ==> IsKey(k))
    && Buffered(buffers) == PcmBytes(h)
  }

  function Buffer(buffers: map<string, seq<byte>>, key: string): seq<byte> {
    if key in buffers then buffers[key] else []
  }

  lemma BufferCreated(buffers: map<string, seq<byte>>, key: string, body: seq<byte>)
    ensures var present := if key in buffers then buffers else buffers[key := []];
      present[key := present[key] + body] == buffers[key := Buffer(buffers, key) + body]
  {
    if key !in buffers {
      assert buffers[key := []][key := [] + body] == buffers[key := [] + body];
    }
  }

  lemma HistoryExtends(h: seq<Arrival>, x: Arrival)
    ensures var m := x.message;
      && PcmCount(h + [x]) == PcmCount(h) + (if IsPcm(m) then 1 else 0)
      && PcmBytes(h + [x]) == PcmBytes(h) + (if IsPcm(m) then |Body(m)| else 0)
      && VideoCount(h + [x]) == VideoCount(h) + (if IsVideo(m) then 1 else 0)
      && VideoBytes(h + [x]) == VideoBytes(h) + (if IsVideo(m) then |m.payload| else 0)
      && AudioCount(h + [x]) == AudioCount(h) + (if IsAudio(m) then 1 else 0)
      && VideoStream(h + [x]) == VideoStream(h) +
           (if IsVideo(m) && |m.payload| > VIDEO_METADATA then m.payload[VIDEO_METADATA..] else [])
      && PcmTimes(h + [x]) == PcmTimes(h) + (if IsPcm(m) then [x.at] else [])
  {
    assert (h + [x])[..|h|] == h;
  }

  lemma StreamExtends(h: seq<Arrival>, x: Arrival, d: nat, a: nat)
    ensures Stream(h + [x], d, a) == Stream(h, d, a) + if InStream(x.message, d, a) then Body(x.message) else []
  {
    assert (h + [x])[..|h|] == h;
  }

  lemma StreamsKept(buffers: map<string, seq<byte>>, h: seq<Arrival>, x: Arrival)
    requires HoldsStreams(buffers, h) && !IsPcm(x.message)
    ensures HoldsStreams(buffers, h + [x])
  {
    HistoryExtends(h, x);
    forall d: nat, a: nat ensures Stream(h + [x], d, a) == Buffer(buffers, Key(d, a)) {
      StreamExtends(h, x, d, a);
    }
  }

  lemma StreamsExtended(buffers: map<string, seq<byte>>, h: seq<Arrival>, x: Arrival, key: string)
    requires HoldsStreams(buffers, h) && IsPcm(x.message)
    requires key == Key(DecodeType(x.message), AudioType(x.message))
    ensures HoldsStreams(buffers[key := Buffer(buffers, key) + Body(x.message)], h + [x])
  {
    hide Key, Stream, Buffered, PcmBytes;
    var m := x.message;
    HistoryExtends(h, x);
    BufferedExtend(buffers, key, Body(m));
    forall d: nat, a: nat
      ensures Stream(h + [x], d, a) == Buffer(buffers[key := Buffer(buffers, key) + Body(m)], Key(d, a))
    {
      StreamExtends(h, x, d, a);
      if Key(d, a) == key {
        KeyIsInjective(d, a, DecodeType(m), AudioType(m));
      }
    }
  }

  function Count(counts: map<string, nat>, key: string): nat {
    if key in counts then counts[key] else 0
  }

  /** Each count is the number of audio messages of its stream. */
  ghost predicate HoldsCounts(counts: map<string, nat>, h: seq<Arrival>) {
    forall d: nat, a: nat :: StreamCount(h, d, a) == Count(counts, Key(d, a))
  }

  lemma StreamCountExtends(h: seq<Arrival>, x: Arrival, d: nat, a: nat)
    ensures StreamCount(h + [x], d, a) == StreamCount(h, d, a) +
      if IsAudio(x.message) && DecodeType(x.message) == d && AudioType(x.message) == a then 1 else 0
  {
    assert (h + [x])[..|h|] == h;
  }

  lemma CountsNext(counts: map<string, nat>, h: seq<Arrival>, x: Arrival)
    requires HoldsCounts(counts, h)
    ensures var m := x.message;
      if IsAudio(m)
      then var key := Key(DecodeType(m), AudioType(m)); HoldsCounts(counts[key := Count(counts, key) + 1], h + [x])
      else HoldsCounts(counts, h + [x])
  {
    hide Key, StreamCount;
    var m := x.message;
    forall d: nat, a: nat ensures StreamCount(h + [x], d, a) == Count(
      if IsAudio(m) then counts[Key(DecodeType(m), AudioType(m)) := Count(counts, Key(DecodeType(m), AudioType(m))) + 1]
      else counts, Key(d, a))
    {
      StreamCountExtends(h, x, d, a);
      if IsAudio(m) && Key(d, a) == Key(DecodeType(m), AudioType(m)) {
        KeyIsInjective(d, a, DecodeType(m), AudioType(m));
      }
    }
  }

  /** The texts of the status file are what the last arrivals with something to say have said. */
  ghost predicate StatusKept(h: seq<Input>, phone: Option<string>, lastCmd: string, lastEvent: string) {
    && IsLatest(h, PhoneOf, None, phone)
    && IsLatest(h, CommandOf, "", lastCmd)
    && IsLatest(h, EventOf, "", lastEvent)
  }

  lemma StatusNext(h: seq<Input>, phone: Option<string>, lastCmd: string, lastEvent: string, x: Input)
    requires StatusKept(h, phone, lastCmd, lastEvent)
    ensures
      StatusKept(h + [x], Override(PhoneOf(x), phone), Override(CommandOf(x), lastCmd), Override(EventOf(x), lastEvent))
  {
    hide PhoneOf, CommandOf, EventOf, IsLatest;
    LatestNext(h, PhoneOf, None, phone, x);
    LatestNext(h, CommandOf, "", lastCmd, x);
    LatestNext(h, EventOf, "", lastEvent, x);
  }

  ghost predicate VideoKept(video: nat, videoBytes: nat, videoFile: seq<byte>, h: seq<Arrival>) {
    video == VideoCount(h) && videoBytes == VideoBytes(h) && videoFile == VideoStream(h)
  }

  lemma VideoNext(video: nat, videoBytes: nat, videoFile: seq<byte>, h: seq<Arrival>, x: Arrival)
    requires VideoKept(video, videoBytes, videoFile, h)
    ensures var m := x.message;
      if IsVideo(m)
      then VideoKept(video + 1, videoBytes + |m.payload|,
                     videoFile + (if |m.payload| > VIDEO_METADATA then m.payload[VIDEO_METADATA..] else []), h + [x])
      else VideoKept(video, videoBytes, videoFile, h + [x])
  {
    HistoryExtends(h, x);
    assert VideoStream(h) + [] == VideoStream(h);
  }

  lemma NothingArrived()
    ensures AccountKept([], 0, 0, 0, []) && GapKept(PcmTimes([]), 0.0, None, LargestLogged([]))
    ensures VideoKept(0, 0, [], []) && AudioCount([]) == 0
    ensures HoldsStreams(map[], []) && HoldsCounts(map[], [])
  {
    hide Key;
    MillisOfZero();
  }

  lemma NothingSaid()
    ensures StatusKept([], None, "", "") && Arrived([], [])
  {
    hide PhoneOf, CommandOf, EventOf;
  }

  lemma NonPcmKeeps(lines: seq<Line>, pcm: nat, bytes: nat, video: nat, buffers: map<string, seq<byte>>, gapMax: real,
                    lastPcm: Option<real>, h: seq<Arrival>, x: Arrival)
    requires AccountKept(lines, pcm, bytes, video, h) && HoldsStreams(buffers, h)
    requires GapKept(PcmTimes(h), gapMax, lastPcm, LargestLogged(lines))
    ensures AudioCount(h + [x]) == AudioCount(h) + if IsAudio(x.message) then 1 else 0
    ensures IsPcm(x.message) || AccountKept(lines, pcm, bytes, if IsVideo(x.message) then video + 1 else video, h + [x])
    ensures IsPcm(x.message) || HoldsStreams(buffers, h + [x])
    ensures IsPcm(x.message) || GapKept(PcmTimes(h + [x]), gapMax, lastPcm, LargestLogged(lines))
  {
    AccountNext(lines, pcm, bytes, video, h, x);
    StreamsNext(buffers, h, x);
    GapNext(h, gapMax, lastPcm, LargestLogged(lines), x);
  }

  lemma VideoSaysNothing(h: seq<Input>, phone: Option<string>, lastCmd: string, lastEvent: string, m: Message)
    requires StatusKept(h, phone, lastCmd, lastEvent) && IsVideo(m)
    ensures StatusKept(h + [Received(m)], phone, lastCmd, lastEvent)
  {
    hide StatusKept;
    StatusNext(h, phone, lastCmd, lastEvent, Received(m));
  }

  lemma AudioSays(m: Message)
    requires IsAudio(m)
    ensures var x := Received(m);
      && PhoneOf(x) == None && CommandOf(x) == None
      && EventOf(x) == if |Body(m)| == 1 then Some("audio:" + AudioCommandLabel(Signed(Body(m)[0]))) else None
  {
  }

  lemma DisconnectsAreKnown()
    ensures forall v :: v in DISCONNECTS ==> CommandLabel(v).Some?
  {
  }

  // ------------------------------------------------------------- files

  datatype Wav = Wav(format: Format, frames: seq<byte>)

  /** The stream's file: there is one exactly for a known format and a stream with bytes. */
  ghost predicate Filed(wavs: map<string, Wav>, h: seq<Arrival>, d: nat, a: nat) {
    && (Key(d, a) in wavs <==> FormatOf(d).Some? && Stream(h, d, a) != [])
    && (Key(d, a) in wavs ==> wavs[Key(d, a)] == Wav(FormatOf(d).value, Stream(h, d, a)))
  }

  // `int(key.split("-")[0][1:])`.
  function TypeInKey(k: string): nat
    requires IsKey(k)
  {
    KeyParses(k);
    ParseDecimal(BeforeDash(k)[1..])
  }

  lemma KeyParses(k: string)
    requires IsKey(k)
    ensures var s := BeforeDash(k); s != [] && forall i :: 1 <= i < |s| ==> IsDigit(s[i])
  {
    var d: nat, a: nat :| k == Key(d, a);
    DecodeTypeOfKey(d, a);
  }

  method WriteWavs(apcm: map<string, seq<byte>>) returns (wavs: map<string, Wav>)
    requires forall k :: k in apcm ==> IsKey(k)
    ensures wavs.Keys <= apcm.Keys
    ensures forall d: nat, a: nat ::
      && (Key(d, a) in wavs <==> FormatOf(d).Some? && Buffer(apcm, Key(d, a)) != [])
      && (Key(d, a) in wavs ==> wavs[Key(d, a)] == Wav(FormatOf(d).value, Buffer(apcm, Key(d, a))))
  {
    hide FormatOf, Key, BeforeDash, IsKey;
    wavs := map[];
    var rest := apcm.Keys;
    while rest != {}
      invariant rest <= apcm.Keys
      invariant forall k :: k in wavs ==> k in apcm && k !in rest
      invariant forall k :: k in apcm && k !in rest ==>
        && (k in wavs <==> FormatOf(TypeInKey(k)).Some? && apcm[k] != [])
        && (k in wavs ==> wavs[k] == Wav(FormatOf(TypeInKey(k)).value, apcm[k]))
      decreases rest
    {
      var key :| key in rest;
      var d := TypeInKey(key);
      var fmt := FormatOf(d);
      if fmt.Some? && apcm[key] != [] {
        wavs := wavs[key := Wav(fmt.value, apcm[key])];
      }
      rest := rest - {key};
    }
    forall d: nat, a: nat
      ensures (Key(d, a) in wavs <==> FormatOf(d).Some? && Buffer(apcm, Key(d, a)) != [])
      ensures (Key(d, a) in wavs ==> wavs[Key(d, a)] == Wav(FormatOf(d).value, Buffer(apcm, Key(d, a))))
    {
      if Key(d, a) in apcm { TypeOfKey(d, a); }
    }
  }

  lemma TypeOfKey(d: nat, a: nat)
    requires IsKey(Key(d, a))
    ensures TypeInKey(Key(d, a)) == d
  {
    DecodeTypeOfKey(d, a);
  }

  lemma StreamsNext(buffers: map<string, seq<byte>>, h: seq<Arrival>, x: Arrival)
    requires HoldsStreams(buffers, h)
    ensures var m := x.message;
      if IsPcm(m)
      then var key := Key(DecodeType(m), AudioType(m));
        HoldsStreams(buffers[key := Buffer(buffers, key) + Body(m)], h + [x])
      else HoldsStreams(buffers, h + [x])
  {
    var m := x.message;
    if IsPcm(m) {
      StreamsExtended(buffers, h, x, Key(DecodeType(m), AudioType(m)));
    } else {
      StreamsKept(buffers, h, x);
    }
  }

  lemma GapNext(h: seq<Arrival>, gapMax: real, lastPcm: Option<real>, logged: int, x: Arrival)
    requires GapKept(PcmTimes(h), gapMax, lastPcm, logged) && logged >= 0
    ensures if IsPcm(x.message)
      then var g := if lastPcm.Some? && x.at - lastPcm.value > gapMax then x.at - lastPcm.value else gapMax;
        GapKept(PcmTimes(h + [x]), g, Some(x.at), logged)
      else GapKept(PcmTimes(h + [x]), gapMax, lastPcm, logged)
  {
    hide GapKept;
    HistoryExtends(h, x);
    GapExtends(PcmTimes(h), gapMax, lastPcm, logged, x.at);
    assert PcmTimes(h) + [] == PcmTimes(h);
  }

  /** Lines plus open window account for every arrival, though empty windows are not logged. */
  ghost predicate AccountKept(lines: seq<Line>, pcm: nat, bytes: nat, video: nat, h: seq<Arrival>) {
    && SumPcm(lines) + pcm == PcmCount(h)
    && SumBytes(lines) + bytes == PcmBytes(h)
    && SumVideo(lines) + video == VideoCount(h)
  }

  lemma AccountNext(lines: seq<Line>, pcm: nat, bytes: nat, video: nat, h: seq<Arrival>, x: Arrival)
    requires AccountKept(lines, pcm, bytes, video, h)
    ensures var m := x.message;
      && (IsPcm(m) ==> AccountKept(lines, pcm + 1, bytes + |Body(m)|, video, h + [x]))
      && (IsVideo(m) ==> AccountKept(lines, pcm, bytes, video + 1, h + [x]))
      && (!IsPcm(m) && !IsVideo(m) ==> AccountKept(lines, pcm, bytes, video, h + [x]))
    ensures AudioCount(h + [x]) == AudioCount(h) + if IsAudio(x.message) then 1 else 0
  {
    HistoryExtends(h, x);
  }

  lemma LineKeepsAccount(lines: seq<Line>, l: Line, times: seq<real>, gapMax: real, lastPcm: Option<real>,
                         h: seq<Arrival>)
    requires AccountKept(lines, l.pcm, l.bytes, l.video, h)
    requires GapKept(times, gapMax, lastPcm, LargestLogged(lines)) && l.maxGap == Millis(gapMax)
    ensures AccountKept(lines + [l], 0, 0, 0, h)
    ensures GapKept(times, 0.0, lastPcm, LargestLogged(lines + [l]))
  {
    hide LargestGap;
    LineCounts(lines, l);
    MillisOfZero();
    MillisMonotone(gapMax, 0.0);
  }

  // ------------------------------------------------------------- recorder

  class Recorder {
    // `state`
    var video: nat
    var videoBytes: nat
    var audio: nat
    var audioStreams: map<string, nat>
    var phone: Option<string>
    var lastCmd: string
    var lastEvent: string

    // `win`
    var start: real
    var pcm: nat
    var bytes: nat
    var gapMax: real
    var windowVideo: nat
    var lastPcm: Option<real>

    // `vfh`, `apcm` and the window lines of the log
    var videoFile: seq<byte>
    var apcm: map<string, seq<byte>>
    var lines: seq<Line>

    // All inputs so far, and the arrivals of the messages among them.
    ghost var inputs: seq<Input>
    ghost var history: seq<Arrival>

    ghost predicate Accounted()
      reads `lines, `pcm, `bytes, `gapMax, `windowVideo, `history
    {
      && AccountKept(lines, pcm, bytes, windowVideo, history)
      && (pcm == 0 ==> bytes == 0 && gapMax == 0.0)
    }

    ghost predicate GapsKept()
      reads `lines, `gapMax, `lastPcm, `history
    {
      GapKept(PcmTimes(history), gapMax, lastPcm, LargestLogged(lines))
    }

    ghost predicate Demultiplexed()
      reads `apcm, `history
    {
      HoldsStreams(apcm, history)
    }

    /** The video file and the status fields. */
    ghost predicate Tracked()
      reads `video, `videoBytes, `audio, `audioStreams, `videoFile, `phone, `lastCmd, `lastEvent, `history, `inputs
    {
      && VideoKept(video, videoBytes, videoFile, history)
      && audio == AudioCount(history)
      && HoldsCounts(audioStreams, history)
      && Arrived(inputs, history)
      && StatusKept(inputs, phone, lastCmd, lastEvent)
    }

    ghost predicate Valid()
      reads this
    {
      Accounted() && GapsKept() && Demultiplexed() && Tracked()
    }

    constructor (now: real)
      ensures Valid() && inputs == [] && history == [] && lines == []
      ensures phone == None && lastCmd == "" && lastEvent == ""
    {
      hide PcmTimes, LargestLogged, AudioCount, HoldsStreams, HoldsCounts, GapKept, AccountKept, StatusKept, VideoKept,
           Arrived;
      NothingArrived();
      NothingSaid();
      video, videoBytes, audio, audioStreams := 0, 0, 0, map[];
      phone, lastCmd, lastEvent := None, "", "";
      start, pcm, bytes, gapMax, windowVideo, lastPcm := now, 0, 0, 0.0, 0, None;
      videoFile, apcm, lines := [], map[], [];
      inputs, history := [], [];
    }

    /** Closes the window if 5 seconds have passed, or if forced; a window without
        PCM and video leaves no line. */
    method WindowTick(now: real, force: bool)
      requires Valid()
      modifies `lines, `start, `pcm, `bytes, `gapMax, `windowVideo
      ensures Valid()
      ensures var due := force || now - old(start) >= 5.0;
        && start == (if due then now else old(start))
        && pcm == (if due then 0 else old(pcm))
        && windowVideo == (if due then 0 else old(windowVideo))
        && gapMax == (if due then 0.0 else old(gapMax))
        && lines == old(lines) +
             (if due && old(pcm != 0 || windowVideo != 0)
              then [Line(old(pcm), old(bytes), Millis(old(gapMax)), old(windowVideo), now - old(start))] else [])
    {
      hide Demultiplexed, Tracked, PcmTimes, LargestLogged, Millis, AccountKept, GapKept;
      if !force && now - start < WINDOW {
        return;
      }
      var span := now - start;
      if pcm != 0 || windowVideo != 0 {
        LineKeepsAccount(lines, Line(pcm, bytes, Millis(gapMax), windowVideo, span), PcmTimes(history), gapMax, lastPcm,
                         history);
        lines := lines + [Line(pcm, bytes, Millis(gapMax), windowVideo, span)];
      }
      start := now;
      pcm := 0;
      bytes := 0;
      gapMax := 0.0;
      windowVideo := 0;
    }

    /** What the main loop does with one message. */
    method Dispatch(m: Message, now: real)
      requires Valid()
      modifies `video, `videoBytes, `windowVideo, `videoFile, `audio, `audioStreams, `gapMax, `lastPcm, `pcm, `bytes,
        `apcm, `phone, `lastCmd, `lastEvent, `history, `inputs
      ensures Valid() && history == old(history) + [Arrival(m, now)] && inputs == old(inputs) + [Received(m)]
    {
      if m.mtype == VIDEO_DATA {
        DispatchVideo(m, now);
      } else if m.mtype == AUDIO_DATA && |m.payload| >= 12 {
        DispatchAudio(m, now);
      } else {
        DispatchStatus(m, now);
      }
    }

    method DispatchVideo(m: Message, ghost now: real)
      requires Valid() && m.mtype == VIDEO_DATA
      modifies `video, `videoBytes, `windowVideo, `videoFile, `history, `inputs
      ensures Valid() && history == old(history) + [Arrival(m, now)] && inputs == old(inputs) + [Received(m)]
    {
      hide AudioCount, PcmTimes, LargestLogged, HoldsStreams, HoldsCounts, GapKept, AccountKept, StatusKept, VideoKept,
           Arrived;
      ghost var x := Arrival(m, now);
      NonPcmKeeps(lines, pcm, bytes, windowVideo, apcm, gapMax, lastPcm, history, x);
      VideoNext(video, videoBytes, videoFile, history, x);
      VideoSaysNothing(inputs, phone, lastCmd, lastEvent, m);
      CountsNext(audioStreams, history, x);
      video := video + 1;
      videoBytes := videoBytes + |m.payload|;
      windowVideo := windowVideo + 1;
      videoFile := videoFile + if |m.payload| > VIDEO_METADATA then m.payload[VIDEO_METADATA..] else [];
      ArrivedNext(inputs, history, x);
      inputs := inputs + [Received(m)];
      history := history + [x];
    }

    method DispatchAudio(m: Message, now: real)
      requires Valid() && m.mtype == AUDIO_DATA && |m.payload| >= 12
      modifies `audio, `audioStreams, `lastEvent, `gapMax, `lastPcm, `pcm, `bytes, `apcm, `history, `inputs
      ensures Valid() && history == old(history) + [Arrival(m, now)] && inputs == old(inputs) + [Received(m)]
    {
      hide PcmTimes, LargestLogged, AudioCount, HoldsStreams, HoldsCounts, GapKept, AccountKept, StatusKept, VideoKept,
           Arrived, Key, Unpack;
      ghost var x := Arrival(m, now);
      NonPcmKeeps(lines, pcm, bytes, windowVideo, apcm, gapMax, lastPcm, history, x);
      var d, a := Unpack(m.payload[..4]), Unpack(m.payload[8..12]);
      var body := m.payload[12..];
      var key := Key(d, a);
      Note(key, body, x);
      if |body| > 4 {
        Pcm(key, body, now, x);
      }
      ArrivedNext(inputs, history, x);
      inputs := inputs + [Received(m)];
      history := history + [x];
    }

    /** Every audio message is counted, a one-byte body is shown as a command. */
    method Note(key: string, body: seq<byte>, ghost x: Arrival)
      requires Tracked()
      requires IsAudio(x.message) && body == Body(x.message)
      requires key == Key(DecodeType(x.message), AudioType(x.message))
      modifies `audio, `audioStreams, `lastEvent
      ensures VideoKept(video, videoBytes, videoFile, history + [x]) && audio == AudioCount(history + [x])
      ensures HoldsCounts(audioStreams, history + [x])
      ensures StatusKept(inputs + [Received(x.message)], phone, lastCmd, lastEvent)
    {
      hide AudioCount, HoldsCounts, StatusKept, VideoKept, Key, AudioCommandLabel, PhoneOf, CommandOf, EventOf;
      AudioSays(x.message);
      HistoryExtends(history, x);
      VideoNext(video, videoBytes, videoFile, history, x);
      StatusNext(inputs, phone, lastCmd, lastEvent, Received(x.message));
      CountsNext(audioStreams, history, x);
      audio := audio + 1;
      audioStreams := audioStreams[key := Count(audioStreams, key) + 1];
      if |body| == 1 {
        lastEvent := "audio:" + AudioCommandLabel(Signed(body[0]));
      }
    }

    /** The PCM branch: window, gap and buffer take in arrival `x`. */
    method Pcm(key: string, body: seq<byte>, now: real, ghost x: Arrival)
      requires Accounted() && GapsKept() && Demultiplexed()
      requires IsPcm(x.message) && x.at == now && body == Body(x.message)
      requires key == Key(DecodeType(x.message), AudioType(x.message))
      modifies `gapMax, `lastPcm, `pcm, `bytes, `apcm
      ensures pcm > 0 && AccountKept(lines, pcm, bytes, windowVideo, history + [x])
      ensures GapKept(PcmTimes(history + [x]), gapMax, lastPcm, LargestLogged(lines))
      ensures HoldsStreams(apcm, history + [x])
    {
      hide PcmTimes, LargestLogged, HoldsStreams, GapKept, AccountKept, Key;
      AccountNext(lines, pcm, bytes, windowVideo, history, x);
      StreamsNext(apcm, history, x);
      GapNext(history, gapMax, lastPcm, LargestLogged(lines), x);
      if lastPcm != None {
        var gap := now - lastPcm.value;
        if gap > gapMax {
          gapMax := gap;
        }
      }
      lastPcm := Some(now);
      pcm := pcm + 1;
      bytes := bytes + |body|;
      BufferCreated(apcm, key, body);
      if key !in apcm {
        apcm := apcm[key := []];
      }
      apcm := apcm[key := apcm[key] + body];
    }

    /** Commands, `Plugged` and `Unplugged`; anything else leaves no trace. */
    method DispatchStatus(m: Message, ghost now: real)
      requires Valid() && m.mtype != VIDEO_DATA && !IsAudio(m)
      modifies `phone, `lastCmd, `lastEvent, `history, `inputs
      ensures Valid() && history == old(history) + [Arrival(m, now)] && inputs == old(inputs) + [Received(m)]
    {
      hide AudioCount, PcmTimes, LargestLogged, HoldsStreams, HoldsCounts, GapKept, AccountKept, StatusKept, VideoKept,
           Arrived;
      ghost var x := Arrival(m, now);
      NonPcmKeeps(lines, pcm, bytes, windowVideo, apcm, gapMax, lastPcm, history, x);
      VideoNext(video, videoBytes, videoFile, history, x);
      CountsNext(audioStreams, history, x);
      ArrivedNext(inputs, history, x);
      Show(m);
      inputs := inputs + [Received(m)];
      history := history + [x];
    }

    method Show(m: Message)
      requires m.mtype != VIDEO_DATA && !IsAudio(m)
      requires StatusKept(inputs, phone, lastCmd, lastEvent)
      modifies `phone, `lastCmd, `lastEvent
      ensures StatusKept(inputs + [Received(m)], phone, lastCmd, lastEvent)
    {
      hide StatusKept, Unpack, CommandLabel, PhoneLabel;
      StatusNext(inputs, phone, lastCmd, lastEvent, Received(m));
      DisconnectsAreKnown();
      if m.mtype == COMMAND && |m.payload| >= 4 {
        var v := Unpack(m.payload[..4]);
        var name := CommandLabel(v);
        if name.Some? {
          lastCmd := name.value;
          lastEvent := name.value;
          if v in DISCONNECTS {
            phone := None;
          }
        }
      } else if m.mtype == PLUGGED {
        var v := if |m.payload| >= 4 then Unpack(m.payload[..4]) else -1;
        phone := Some(PhoneLabel(v));
        lastEvent := "PLUGGED " + PhoneLabel(v);
      } else if m.mtype == UNPLUGGED {
        phone := None;
        lastEvent := "UNPLUGGED";
      }
    }

    /** What the main loop does when the dongle has been reset, apart from reopening it. */
    method NoteReset()
      requires Valid()
      modifies `phone, `lastEvent, `inputs
      ensures Valid() && inputs == old(inputs) + [Reset]
    {
      hide AudioCount, PcmTimes, LargestLogged, HoldsStreams, HoldsCounts, GapKept, AccountKept, StatusKept, VideoKept,
           Arrived;
      StatusNext(inputs, phone, lastCmd, lastEvent, Reset);
      ArrivedAndReset(inputs, history);
      phone := None;
      lastEvent := "dongle reset";
      inputs := inputs + [Reset];
    }

    /** The forced tick at shutdown; then every stream with a known format and any bytes becomes
        a file, and the video file is kept if there was a video message. */
    method Shutdown(now: real) returns (wavs: map<string, Wav>, videoKept: bool)
      requires Valid()
      modifies `lines, `start, `pcm, `bytes, `gapMax, `windowVideo
      ensures Valid()
      ensures SumPcm(lines) == PcmCount(history)
      ensures SumBytes(lines) == PcmBytes(history) == Buffered(apcm)
      ensures SumVideo(lines) == VideoCount(history)
      ensures LargestLogged(lines) == Millis(LargestGap(PcmTimes(history)))
      ensures forall k :: k in wavs ==> IsKey(k)
      ensures forall d: nat, a: nat :: Filed(wavs, history, d, a)
      ensures videoKept == (VideoCount(history) != 0)
    {
      WindowTick(now, true);
      MillisOfZero();
      videoKept := video != 0;
      wavs := WriteWavs(apcm);
      forall d: nat, a: nat ensures Filed(wavs, history, d, a) {
        assert Stream(history, d, a) == Buffer(apcm, Key(d, a));
      }
    }
  }
}
