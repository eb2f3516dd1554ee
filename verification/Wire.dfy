// `Session.send` from three threads on one device: every message is written
// under one lock, as a header write and, if there is one, a payload write.
// A write may raise, and may put only part of its bytes on the wire.  A run is
// any interleaving of the threads' steps.
module Wire {
  import opened Wrappers
  import opened Bytes
  import opened Framing

  const WIFI_CONNECT: u32 := 1002

  datatype Thread = Main | Heartbeat | Reconnect

  // Where a thread is in `send`; `Finished` once a write has raised in it.
  datatype Stage =
    | Idle
    | Waiting(message: Message)
    | Locked(message: Message)
    | HeaderSent(message: Message)
    | PayloadSent(message: Message)
    | Finished

  datatype Entry = Entry(thread: Thread, message: Message)

  // Set by the first write that leaves a frame incomplete: the messages in front
  // of that frame, and the bytes on the wire since its start.
  datatype Tear = Tear(before: seq<Message>, since: seq<byte>)

  // `acquired` lists the sends in the order in which they got the lock, without
  // those that raised before their frame was whole; `requested` counts the sends
  // that `Main` began.
  datatype State = State(
    stages: map<Thread, Stage>,
    lock: Option<Thread>,
    wire: seq<byte>,
    acquired: seq<Entry>,
    requested: nat,
    torn: Option<Tear>)

  // Of a write, `sent` bytes reach the wire, and then it returns or raises; `send`
  // does not look at how much was written.
  datatype Step =
    | Request(t: Thread, message: Message)
    | Acquire(t: Thread)
    | WriteHeader(t: Thread, sent: nat, raised: bool)
    | WritePayload(t: Thread, sent: nat, raised: bool)
    | Release(t: Thread)

  ghost predicate Init(s: State) {
    && (forall t: Thread :: t in s.stages && s.stages[t] == Idle)
    && s.lock == None && s.wire == [] && s.acquired == [] && s.requested == 0 && s.torn == None
  }

  /** `Main` works through `program`; the other two repeat one message each. */
  predicate MaySend(program: seq<Message>, k: nat, t: Thread, m: Message) {
    match t
    case Main => k < |program| && m == program[k]
    case Heartbeat => m == Message(HEARTBEAT, [])
    case Reconnect => m == Message(COMMAND, Pack(WIFI_CONNECT))
  }

  predicate Holding(g: Stage) {
    g.Locked? || g.HeaderSent? || g.PayloadSent?
  }

  /** Nothing of the message is left to write. */
  predicate Complete(g: Stage) {
    g.PayloadSent? || (g.HeaderSent? && g.message.payload == [])
  }

  ghost predicate Enabled(program: seq<Message>, s: State, step: Step)
    requires step.t in s.stages
  {
    var g := s.stages[step.t];
    match step
    case Request(t, m) => g.Idle? && MaySend(program, s.requested, t, m)
    case Acquire(_) => g.Waiting? && s.lock == None
    // Packing the length of an oversized payload raises before anything is written.
    case WriteHeader(_, sent, raised) =>
      g.Locked? && if Sendable(g.message) then sent <= HEADER_SIZE else sent == 0 && raised
    case WritePayload(_, sent, _) =>
      g.HeaderSent? && Sendable(g.message) && g.message.payload != [] && sent <= |g.message.payload|
    case Release(_) => Complete(g)
  }

  function Front(es: seq<Entry>): seq<Entry> {
    if es == [] then [] else es[..|es| - 1]
  }

  /** A write of `bytes` behind the part `onWire` of the same frame.  `all` says that the write
      was whole, `last` that a whole write completes the frame. */
  ghost function Write(s: State, t: Thread, onWire: seq<byte>, bytes: seq<byte>,
                       all: bool, last: bool, raised: bool, next: Stage): State
  {
    // An exception leaves `with self.lock`, and the thread's loop.
    s.(stages := s.stages[t := if raised then Finished else next],
       lock := if raised then None else s.lock,
       wire := s.wire + bytes,
       acquired := if raised && !(all && last) then Front(s.acquired) else s.acquired,
       torn :=
         if s.torn.Some? then Some(Tear(s.torn.value.before, s.torn.value.since + bytes))
         else if Harmless(onWire + bytes, all, last, raised) then None
         else Some(Tear(Messages(Front(s.acquired)), onWire + bytes)))
  }

  /** A write leaves no broken frame behind if it is whole, and with its thread going on or
      nothing left to write; or if it raises before the first byte of the frame. */
  predicate Harmless(frame: seq<byte>, all: bool, last: bool, raised: bool) {
    (all && (!raised || last)) || (raised && frame == [])
  }

  ghost function Take(program: seq<Message>, s: State, step: Step): State
    requires step.t in s.stages && Enabled(program, s, step)
  {
    var t, g := step.t, s.stages[step.t];
    match step
    case Request(_, m) =>
      s.(stages := s.stages[t := Waiting(m)], requested := if t.Main? then s.requested + 1 else s.requested)
    case Acquire(_) =>
      s.(stages := s.stages[t := Locked(g.message)], lock := Some(t), acquired := s.acquired + [Entry(t, g.message)])
    case WriteHeader(_, sent, raised) =>
      var m := g.message;
      var bytes := if Sendable(m) then Hdr(m.mtype, |m.payload|)[..sent] else [];
      Write(s, t, [], bytes, sent == HEADER_SIZE, m.payload == [], raised, HeaderSent(m))
    case WritePayload(_, sent, raised) =>
      var m := g.message;
      Write(s, t, Hdr(m.mtype, |m.payload|), m.payload[..sent], sent == |m.payload|, true, raised, PayloadSent(m))
    case Release(_) =>
      s.(stages := s.stages[t := Idle], lock := None)
  }

  /** A finite run from the initial state. */
  ghost predicate IsRun(program: seq<Message>, states: seq<State>, steps: seq<Step>) {
    && |states| == |steps| + 1
    && Init(states[0])
    && forall i :: 0 <= i < |steps| ==>
         && steps[i].t in states[i].stages
         && Enabled(program, states[i], steps[i])
         && states[i + 1] == Take(program, states[i], steps[i])
  }

  // ------------------------------------------------------------- invariant

  function Messages(es: seq<Entry>): (ms: seq<Message>)
    ensures |ms| == |es|
    ensures forall i :: 0 <= i < |es| ==> ms[i] == es[i].message
  {
    if es == [] then [] else Messages(es[..|es| - 1]) + [es[|es| - 1].message]
  }

  function By(es: seq<Entry>, t: Thread): seq<Message> {
    if es == [] then []
    else
      var n := |es| - 1;
      if es[n].thread == t then By(es[..n], t) + [es[n].message] else By(es[..n], t)
  }

  ghost predicate AllSendable(ms: seq<Message>) {
    forall m :: m in ms ==> Sendable(m)
  }

  /** The part of the holder's message that is on the wire if nothing was torn. */
  function Written(g: Stage): seq<byte>
    requires Holding(g) && (g.Locked? || Sendable(g.message))
  {
    match g
    case Locked(_) => []
    case HeaderSent(m) => Hdr(m.mtype, |m.payload|)
    case PayloadSent(m) => Encode(m)
    case _ => []
  }

  /** Only the lock holder is inside the critical section. */
  ghost predicate Exclusive(s: State) {
    && (forall t: Thread :: t in s.stages)
    && (forall t: Thread :: Holding(s.stages[t]) <==> s.lock == Some(t))
  }

  /** The holder's send is the last one acquired. */
  ghost predicate HolderLast(s: State)
    requires Exclusive(s)
  {
    s.lock.Some? ==>
      var g := s.stages[s.lock.value];
      && s.acquired != []
      && s.acquired[|s.acquired| - 1] == Entry(s.lock.value, g.message)
      && (g.Locked? || Sendable(g.message))
  }

  /** The sends whose time in the critical section is over. */
  function Settled(s: State): seq<Entry> {
    if s.lock == None then s.acquired else Front(s.acquired)
  }

  /** The wire is the frames of the settled sends and what the holder has to have written of its own. */
  ghost predicate WholeFrames(s: State) {
    Exclusive(s) && HolderLast(s) &&
    var settled := Messages(Settled(s));
    && AllSendable(settled)
    && s.wire == EncodeAll(settled) + (if s.lock == None then [] else Written(s.stages[s.lock.value]))
  }

  ghost predicate OnWire(s: State)
    requires Exclusive(s) && HolderLast(s)
  {
    match s.torn
    case None => WholeFrames(s)
    case Some(tear) =>
      && AllSendable(tear.before)
      && s.wire == EncodeAll(tear.before) + tear.since
      && tear.before <= Messages(Settled(s))
  }

  /** Whole frames, but for what the lock holder is writing or what was torn. */
  ghost predicate Framed(s: State) {
    Exclusive(s) && HolderLast(s) && OnWire(s)
  }

  /** `Main` has sent the start of its program; one message may be waiting or lost. */
  ghost predicate MainInOrder(program: seq<Message>, s: State)
    requires Main in s.stages
  {
    var g, sent := s.stages[Main], By(s.acquired, Main);
    && s.requested <= |program|
    && match g
       case Waiting(m) => s.requested > 0 && sent == program[..s.requested - 1] && m == program[s.requested - 1]
       case Finished => s.requested > 0 && (sent == program[..s.requested] || sent == program[..s.requested - 1])
       case _ => sent == program[..s.requested]
  }

  /** The other threads repeat their own message. */
  ghost predicate OthersRepeat(program: seq<Message>, s: State)
    requires forall t: Thread :: t in s.stages
  {
    && (forall i :: 0 <= i < |s.acquired| && !s.acquired[i].thread.Main? ==>
          MaySend(program, 0, s.acquired[i].thread, s.acquired[i].message))
    && (forall t: Thread :: !t.Main? && (s.stages[t].Waiting? || Holding(s.stages[t])) ==>
          MaySend(program, 0, t, s.stages[t].message))
  }

  ghost predicate Inv(program: seq<Message>, s: State) {
    Framed(s) && MainInOrder(program, s) && OthersRepeat(program, s)
  }

  lemma StepKeepsExclusive(program: seq<Message>, s: State, step: Step)
    requires Exclusive(s) && HolderLast(s) && Enabled(program, s, step)
    ensures Exclusive(Take(program, s, step)) && HolderLast(Take(program, s, step))
  {
    hide Messages, MaySend, Sendable, Hdr, Harmless;
  }

  lemma MessagesOfAppend(es: seq<Entry>, e: Entry)
    ensures Messages(es + [e]) == Messages(es) + [e.message]
  {
    assert (es + [e])[..|es|] == es;
  }

  lemma ByAppend(es: seq<Entry>, e: Entry, t: Thread)
    ensures By(es + [e], t) == if e.thread == t then By(es, t) + [e.message] else By(es, t)
  {
    assert (es + [e])[..|es|] == es;
  }

  lemma EncodeAllAppend(ms: seq<Message>, m: Message)
    requires AllSendable(ms) && Sendable(m)
    ensures AllSendable(ms + [m]) && EncodeAll(ms + [m]) == EncodeAll(ms) + Encode(m)
  {
    assert (ms + [m])[..|ms|] == ms;
  }

  lemma EncodeIsHeaderThenPayload(m: Message)
    requires Sendable(m)
    ensures Encode(m) == Hdr(m.mtype, |m.payload|) + m.payload
  {
  }

  /** The holder's send settles: it joins the whole frames. */
  lemma Settles(s: State)
    requires Exclusive(s) && HolderLast(s) && s.lock.Some? && Sendable(s.stages[s.lock.value].message)
    requires AllSendable(Messages(Front(s.acquired)))
    ensures var m := s.stages[s.lock.value].message;
      && Messages(s.acquired) == Messages(Front(s.acquired)) + [m]
      && AllSendable(Messages(s.acquired))
      && EncodeAll(Messages(s.acquired)) == EncodeAll(Messages(Front(s.acquired))) + Encode(m)
  {
    hide EncodeAll, Encode, Messages, Sendable, AllSendable;
    var n := |s.acquired| - 1;
    assert s.acquired == Front(s.acquired) + [s.acquired[n]];
    MessagesOfAppend(Front(s.acquired), s.acquired[n]);
    EncodeAllAppend(Messages(Front(s.acquired)), s.stages[s.lock.value].message);
  }

  /** Without changing what is settled, more bytes reach a torn wire. */
  lemma TornGrows(wire: seq<byte>, before: seq<Message>, since: seq<byte>, bytes: seq<byte>)
    requires AllSendable(before) && wire == EncodeAll(before) + since
    ensures wire + bytes == EncodeAll(before) + (since + bytes)
  {
  }

  lemma FrontOfAppend(es: seq<Entry>, e: Entry)
    ensures Front(es + [e]) == es
  {
  }

  /** The settled sends only grow: by the holder's when it releases or completes its frame. */
  lemma SettledGrows(program: seq<Message>, s: State, step: Step)
    requires Exclusive(s) && HolderLast(s) && Enabled(program, s, step)
    ensures Messages(Settled(s)) <= Messages(Settled(Take(program, s, step)))
  {
    hide MaySend, Sendable, Hdr, Harmless, Messages;
    var s' := Take(program, s, step);
    if s.acquired != [] {
      var n := |s.acquired| - 1;
      assert s.acquired == Front(s.acquired) + [s.acquired[n]];
      MessagesOfAppend(Front(s.acquired), s.acquired[n]);
    }
    if step.Acquire? {
      FrontOfAppend(s.acquired, Entry(step.t, s.stages[step.t].message));
    }
  }

  lemma StepOnTornWire(program: seq<Message>, s: State, step: Step)
    requires Framed(s) && s.torn.Some? && Enabled(program, s, step)
    ensures Framed(Take(program, s, step))
  {
    hide MaySend, Hdr, Harmless, Messages, EncodeAll, Settled;
    StepKeepsExclusive(program, s, step);
    SettledGrows(program, s, step);
    var g, tear := s.stages[step.t], s.torn.value;
    match step
    case WriteHeader(_, sent, _) =>
      TornGrows(s.wire, tear.before, tear.since,
                if Sendable(g.message) then Hdr(g.message.mtype, |g.message.payload|)[..sent] else []);
    case WritePayload(_, sent, _) =>
      TornGrows(s.wire, tear.before, tear.since, g.message.payload[..sent]);
    case _ =>
  }

  lemma StepWithoutWrite(program: seq<Message>, s: State, step: Step)
    requires Framed(s) && s.torn == None && Enabled(program, s, step)
    requires step.Request? || step.Acquire? || step.Release?
    ensures Framed(Take(program, s, step))
  {
    hide MaySend, Hdr, Messages, EncodeAll, Encode;
    StepKeepsExclusive(program, s, step);
    var g := s.stages[step.t];
    match step
    case Acquire(t) =>
      FrontOfAppend(s.acquired, Entry(t, g.message));
    case Release(_) =>
      EncodeIsHeaderThenPayload(g.message);
      assert Hdr(g.message.mtype, |g.message.payload|) + [] == Hdr(g.message.mtype, |g.message.payload|);
      Settles(s);
      var e := EncodeAll(Messages(s.acquired));
      assert e + [] == e;
    case _ =>
  }

  lemma HeaderOnCleanWire(program: seq<Message>, s: State, step: Step)
    requires Framed(s) && s.torn == None && step.WriteHeader? && Enabled(program, s, step)
    ensures Framed(Take(program, s, step))
  {
    hide MaySend, Messages, EncodeAll, Encode, Hdr;
    StepKeepsExclusive(program, s, step);
    var m := s.stages[step.t].message;
    var front := EncodeAll(Messages(Front(s.acquired)));
    assert s.wire == front by { assert front + [] == front; }
    if Sendable(m) {
      var h := Hdr(m.mtype, |m.payload|);
      assert h[..HEADER_SIZE] == h && h[..0] == [];
      EncodeIsHeaderThenPayload(m);
      if step.raised && step.sent == HEADER_SIZE && m.payload == [] {
        Settles(s);
        assert h + [] == h;
      }
      assert [] + h[..step.sent] == h[..step.sent];
    }
    CleanEnds(front);
  }

  lemma CleanEnds(b: seq<byte>)
    ensures b + [] == b
  {
  }

  lemma PayloadOnCleanWire(program: seq<Message>, s: State, step: Step)
    requires Framed(s) && s.torn == None && step.WritePayload? && Enabled(program, s, step)
    ensures Framed(Take(program, s, step))
  {
    hide MaySend, Messages, EncodeAll, Encode, Hdr;
    StepKeepsExclusive(program, s, step);
    var m := s.stages[step.t].message;
    var front, h := EncodeAll(Messages(Front(s.acquired))), Hdr(m.mtype, |m.payload|);
    EncodeIsHeaderThenPayload(m);
    var bytes := m.payload[..step.sent];
    assert front + h + bytes == front + (h + bytes);
    if step.sent == |m.payload| {
      assert bytes == m.payload;
      if step.raised {
        Settles(s);
        CleanEnds(front + Encode(m));
      }
    }
  }

  /** Every step keeps the wire framed. */
  lemma StepKeepsFramed(program: seq<Message>, s: State, step: Step)
    requires Framed(s) && Enabled(program, s, step)
    ensures Framed(Take(program, s, step))
  {
    hide Framed, Enabled, Take;
    if s.torn.Some? {
      StepOnTornWire(program, s, step);
    } else {
      match step
      case WriteHeader(_, _, _) => HeaderOnCleanWire(program, s, step);
      case WritePayload(_, _, _) => PayloadOnCleanWire(program, s, step);
      case _ => StepWithoutWrite(program, s, step);
    }
  }

  /** What a step does to the sends of one thread. */
  lemma StepOnSends(program: seq<Message>, s: State, step: Step, t: Thread)
    requires Exclusive(s) && HolderLast(s) && Enabled(program, s, step)
    ensures var s', g := Take(program, s, step), s.stages[step.t];
      if step.Acquire? then By(s'.acquired, t) == By(s.acquired, t) + (if step.t == t then [g.message] else [])
      else if s'.acquired == s.acquired then true
      else By(s.acquired, t) == By(s'.acquired, t) + (if step.t == t then [g.message] else [])
    ensures var s' := Take(program, s, step);
      s'.acquired != s.acquired ==> step.Acquire? || s'.stages[step.t] == Finished
    ensures (step.WriteHeader? || step.WritePayload?) && step.t == t ==> By(s.acquired, t) != []
  {
    hide Messages, By, Harmless, Hdr, Sendable, MaySend;
    match step
    case Acquire(t') => ByAppend(s.acquired, Entry(t', s.stages[t'].message), t);
    case Request(_, _) =>
    case Release(_) =>
    case _ =>
      var n := |s.acquired| - 1;
      assert s.acquired == Front(s.acquired) + [s.acquired[n]];
      ByAppend(Front(s.acquired), s.acquired[n], t);
  }

  lemma StepKeepsMain(program: seq<Message>, s: State, step: Step)
    requires Exclusive(s) && HolderLast(s) && MainInOrder(program, s) && Enabled(program, s, step)
    ensures Main in Take(program, s, step).stages && MainInOrder(program, Take(program, s, step))
  {
    hide Messages, By, Harmless, Hdr, Sendable;
    StepOnSends(program, s, step, Main);
    if s.requested > 0 {
      assert program[..s.requested] == program[..s.requested - 1] + [program[s.requested - 1]];
    }
    var sent, sent' := By(s.acquired, Main), By(Take(program, s, step).acquired, Main);
    assert sent + [] == sent && sent' + [] == sent';
    if |sent| > |sent'| {
      assert sent' == sent[..|sent'|] == program[..s.requested - 1];
    }
  }

  lemma StepKeepsOthers(program: seq<Message>, s: State, step: Step)
    requires Exclusive(s) && OthersRepeat(program, s) && Enabled(program, s, step)
    ensures forall t: Thread :: t in Take(program, s, step).stages
    ensures OthersRepeat(program, Take(program, s, step))
  {
    hide Messages, Harmless, Hdr, Sendable;
  }

  /** Every step keeps the threads' sends in the order in which each makes them. */
  lemma StepKeepsOrder(program: seq<Message>, s: State, step: Step)
    requires Inv(program, s) && Enabled(program, s, step)
    ensures Inv(program, Take(program, s, step))
  {
    hide Enabled, Take, MainInOrder, OthersRepeat, OnWire;
    StepKeepsFramed(program, s, step);
    StepKeepsMain(program, s, step);
    StepKeepsOthers(program, s, step);
  }

  lemma {:induction false} RunKeepsInv(program: seq<Message>, states: seq<State>, steps: seq<Step>, i: nat)
    requires IsRun(program, states, steps) && i < |states|
    ensures Inv(program, states[i])
  {
    hide Enabled, Take, Framed, MainInOrder, OthersRepeat, Init;
    if i == 0 {
      InitIsInv(program, states[0]);
    } else {
      RunKeepsInv(program, states, steps, i - 1);
      StepKeepsOrder(program, states[i - 1], steps[i - 1]);
    }
  }

  lemma InitIsInv(program: seq<Message>, s: State)
    requires Init(s)
    ensures Inv(program, s)
  {
  }

  // ------------------------------------------------------------- theorems

  /** The messages wholly on the wire, in the order in which they got the lock. */
  ghost function Whole(s: State): seq<Message>
    requires Framed(s)
  {
    if s.lock == None || Complete(s.stages[s.lock.value]) then Messages(s.acquired)
    else Messages(Front(s.acquired))
  }

  /** The header, if any, whose payload the lock holder still owes. */
  ghost function Owed(s: State): seq<byte>
    requires Framed(s)
  {
    if s.lock == None || Complete(s.stages[s.lock.value]) then [] else Written(s.stages[s.lock.value])
  }

  /** Whole frames decode to the messages they are, plus at most one header whose payload is owed. */
  lemma WholeFramesDecode(s: State)
    requires Framed(s) && WholeFrames(s)
    ensures Decode(s.wire) == Decoded(Whole(s), Owed(s))
  {
    hide Encode, EncodeAll, Decode, Messages, Hdr;
    NothingToDecode();
    var settled := Messages(Settled(s));
    assert settled + [] == settled;
    if s.lock == None {
      DecodeFrames(settled, []);
    } else {
      var g := s.stages[s.lock.value];
      DecodeFrames(settled, Written(g));
      if Complete(g) {
        Settles(s);
        EncodeIsHeaderThenPayload(g.message);
        CleanEnds(Encode(g.message));
        CleanEnds(Hdr(g.message.mtype, |g.message.payload|));
        DecodeFrame(g.message, []);
        assert [g.message] + [] == [g.message];
      } else if g.HeaderSent? {
        DecodeOwed(g.message);
      }
    }
  }

  lemma NothingToDecode()
    ensures Decode([]) == Decoded([], [])
  {
  }

  /** The step leaves no broken frame on the wire. */
  ghost predicate Clean(s: State, step: Step) {
    step.t in s.stages &&
    match step
    case WriteHeader(_, sent, raised) =>
      Holding(s.stages[step.t]) &&
      if raised then sent == 0 || (sent == HEADER_SIZE && s.stages[step.t].message.payload == [])
      else sent == HEADER_SIZE
    case WritePayload(_, sent, _) =>
      Holding(s.stages[step.t]) && sent == |s.stages[step.t].message.payload|
    case _ => true
  }

  ghost predicate AllClean(states: seq<State>, steps: seq<Step>, i: nat)
    requires |steps| + 1 == |states| && i < |states|
  {
    forall j :: 0 <= j < i ==> Clean(states[j], steps[j])
  }

  ghost predicate AllWhole(states: seq<State>, i: nat)
    requires i < |states|
  {
    forall j :: 0 <= j <= i ==> WholeFrames(states[j])
  }

  lemma TornByUncleanStep(program: seq<Message>, s: State, step: Step)
    requires Framed(s) && Enabled(program, s, step)
    ensures Take(program, s, step).torn == None <==> s.torn == None && Clean(s, step)
  {
    hide Messages, OnWire, HolderLast;
  }

  lemma {:induction false} TornByUncleanRun(program: seq<Message>, states: seq<State>, steps: seq<Step>, i: nat)
    requires IsRun(program, states, steps) && i < |states|
    ensures states[i].torn == None <==> AllClean(states, steps, i)
  {
    hide Enabled, Take, Framed, MainInOrder, OthersRepeat, Clean;
    if i > 0 {
      TornByUncleanRun(program, states, steps, i - 1);
      RunKeepsInv(program, states, steps, i - 1);
      TornByUncleanStep(program, states[i - 1], steps[i - 1]);
    }
  }

  /** An unclean write leaves something else on the wire than whole frames and the holder's part:
      too little if it falls short, too much if it raises. */
  lemma UncleanStepBreaksFrames(program: seq<Message>, s: State, step: Step)
    requires Framed(s) && s.torn == None && Enabled(program, s, step) && !Clean(s, step)
    ensures Framed(Take(program, s, step))
    ensures !WholeFrames(Take(program, s, step))
  {
    hide MaySend, Messages, EncodeAll, Encode, Hdr;
    StepKeepsFramed(program, s, step);
    EncodeIsHeaderThenPayload(s.stages[step.t].message);
    var s' := Take(program, s, step);
    var settled := EncodeAll(Messages(Front(s.acquired)));
    assert |s.wire| == |settled| + |Written(s.stages[step.t])|;
    assert Settled(s') == Front(s.acquired);
    assert |s'.wire| != |settled| + if s'.lock == None then 0 else |Written(s'.stages[step.t])|;
  }

  /** The wire has been whole frames and the holder's part all along exactly if every write was clean. */
  lemma {:induction false} FramesBreakAtUncleanStep(
      program: seq<Message>, states: seq<State>, steps: seq<Step>, i: nat)
    requires IsRun(program, states, steps) && i < |states|
    ensures AllWhole(states, i) <==> AllClean(states, steps, i)
  {
    hide Enabled, Take, Framed, WholeFrames, MainInOrder, OthersRepeat, Clean, Init;
    RunKeepsInv(program, states, steps, i);
    TornByUncleanRun(program, states, steps, i);
    if states[i].torn == None {
      UntornIsWhole(states[i]);
    }
    if i > 0 {
      FramesBreakAtUncleanStep(program, states, steps, i - 1);
      RunKeepsInv(program, states, steps, i - 1);
      TornByUncleanRun(program, states, steps, i - 1);
      var before, step := states[i - 1], steps[i - 1];
      if before.torn == None && !Clean(before, step) {
        UncleanStepBreaksFrames(program, before, step);
      }
    }
  }

  lemma UntornIsWhole(s: State)
    requires Framed(s) && s.torn == None
    ensures WholeFrames(s)
  {
  }

  /** At every moment of every interleaving, whatever writes raise or fall short: the settled
      part of the wire is the messages in lock-acquisition order, and of these `Main`'s are the
      start of its program and the others' their own message.  As long as every write was
      clean, the dongle decodes exactly these messages plus at most one header whose payload is
      still owed.  The first unclean write ends that; from then on it decodes exactly the
      messages in front of that frame, and then whatever the bytes since then look like. */
  lemma WireIsFramed(program: seq<Message>, states: seq<State>, steps: seq<Step>, i: nat)
    requires IsRun(program, states, steps) && i < |states|
    ensures Framed(states[i])
    ensures AllWhole(states, i) <==> AllClean(states, steps, i)
    ensures WholeFrames(states[i]) ==>
      && Decode(states[i].wire) == Decoded(Whole(states[i]), Owed(states[i]))
      && Whole(states[i]) <= Messages(states[i].acquired)
      && |Whole(states[i])| >= |states[i].acquired| - 1
    ensures states[i].torn == None <==> AllClean(states, steps, i)
    ensures states[i].torn.Some? ==>
      var tear := states[i].torn.value;
      && Decode(states[i].wire) == Decoded(tear.before + Decode(tear.since).messages, Decode(tear.since).rest)
      && tear.before <= Messages(Settled(states[i]))
    ensures By(states[i].acquired, Main) <= program
    ensures forall e :: e in states[i].acquired ==>
      && (e.thread == Heartbeat ==> e.message == Message(HEARTBEAT, []))
      && (e.thread == Reconnect ==> e.message == Message(COMMAND, Pack(WIFI_CONNECT)))
  {
    hide Decode, Encode, EncodeAll, By, IsRun, AllClean, AllWhole, Messages, Settled, WholeFrames;
    RunKeepsInv(program, states, steps, i);
    TornByUncleanRun(program, states, steps, i);
    FramesBreakAtUncleanStep(program, states, steps, i);
    var s := states[i];
    if WholeFrames(s) {
      WholeFramesDecode(s);
      FrontIsPrefix(s.acquired);
    }
    if s.torn.Some? {
      DecodeFrames(s.torn.value.before, s.torn.value.since);
    }
  }

  lemma FrontIsPrefix(es: seq<Entry>)
    ensures Messages(Front(es)) <= Messages(es) && |Messages(Front(es))| >= |es| - 1
  {
  }

  function Remaining(g: Stage): nat {
    match g
    case Locked(_) => 3
    case HeaderSent(m) => if m.payload == [] then 1 else 2
    case PayloadSent(_) => 1
    case _ => 0
  }

  /** The lock is never stuck: its holder always has a step, a raising one only for an oversized
      payload; every step of the holder brings it closer to releasing, and no step of another
      thread holds it up. */
  lemma HolderReleases(program: seq<Message>, s: State, t: Thread)
    requires Framed(s) && s.lock == Some(t)
    ensures exists step: Step ::
      (step.t == t && Enabled(program, s, step) && (Sendable(s.stages[t].message) ==> Clean(s, step)))
    ensures forall step: Step :: Enabled(program, s, step) ==>
      var s' := Take(program, s, step);
      if step.t == t
      then
        && Remaining(s'.stages[t]) < Remaining(s.stages[t])
        && (Remaining(s'.stages[t]) == 0 <==> s'.lock == None)
      else s'.stages[t] == s.stages[t] && s'.lock == s.lock
  {
    hide OnWire, Messages, MaySend, Harmless, Hdr;
    var g := s.stages[t];
    var step := match g
      case Locked(m) => if Sendable(m) then WriteHeader(t, HEADER_SIZE, false) else WriteHeader(t, 0, true)
      case HeaderSent(m) => if m.payload == [] then Release(t) else WritePayload(t, |m.payload|, false)
      case _ => Release(t);
    assert step.t == t && Enabled(program, s, step);
  }

  // ------------------------------------------------------------- what can happen

  /** What a thread sends next, in bytes where they are fixed; `k` is what `Main` has requested. */
  ghost predicate IsNext(program: seq<Message>, k: nat, e: Entry) {
    match e.thread
    case Main => k < |program| && e.message == program[k]
    case Heartbeat => e.message == Message(0xAA, [])
    case Reconnect => e.message == Message(0x08, [0xEA, 0x03, 0x00, 0x00])
  }

  lemma NextMaySend(program: seq<Message>, k: nat, e: Entry)
    requires IsNext(program, k, e)
    ensures MaySend(program, k, e.thread, e.message)
  {
    assert Pack(WIFI_CONNECT) == [0xEA, 0x03, 0x00, 0x00];
  }

  ghost predicate AllIdle(s: State) {
    s.lock == None && forall t: Thread :: t in s.stages && s.stages[t] == Idle
  }

  /** Thread `e.thread` asks for the lock and gets it. */
  lemma LockTaken(program: seq<Message>, states: seq<State>, steps: seq<Step>, e: Entry)
    returns (states': seq<State>, steps': seq<Step>)
    requires IsRun(program, states, steps) && AllIdle(states[|steps|])
    requires IsNext(program, states[|steps|].requested, e)
    ensures IsRun(program, states', steps') && |states'| == |steps'| + 1
    ensures var s := states[|steps|];
      states'[|steps'|] == s.(
        stages := s.stages[e.thread := Locked(e.message)], lock := Some(e.thread),
        acquired := s.acquired + [e], requested := s.requested + if e.thread.Main? then 1 else 0)
  {
    hide IsRun, MaySend, IsNext;
    RunLength(program, states, steps);
    var s := states[|steps|];
    NextMaySend(program, s.requested, e);
    states', steps' := Continue(program, states, steps, Request(e.thread, e.message));
    states', steps' := Continue(program, states', steps', Acquire(e.thread));
    assert s.stages[e.thread := Waiting(e.message)][e.thread := Locked(e.message)]
        == s.stages[e.thread := Locked(e.message)];
  }

  /** The lock holder may put any first part of its frame on the wire, and go on or raise there;
      of a message that is too long it can only raise in front of everything. */
  lemma FramePartlyWritten(program: seq<Message>, states: seq<State>, steps: seq<Step>, e: Entry, n: nat, raised: bool)
    returns (states': seq<State>, steps': seq<Step>)
    requires IsRun(program, states, steps)
    requires var s := states[|steps|]; e.thread in s.stages && s.stages[e.thread] == Locked(e.message)
    requires if |e.message.payload| < 0x1_0000_0000 then n <= |Encode(e.message)| else n == 0 && raised
    ensures IsRun(program, states', steps') && |states'| == |steps'| + 1
    ensures var s, s', m := states[|steps|], states'[|steps'|], e.message;
      && s'.wire == s.wire + (if |m.payload| < 0x1_0000_0000 then Encode(m)[..n] else [])
      && s'.lock == (if raised then None else s.lock)
      && e.thread in s'.stages
      && s'.stages == s.stages[e.thread := s'.stages[e.thread]]
      && s'.stages[e.thread] ==
           (if raised then Finished else if n < HEADER_SIZE || m.payload == [] then HeaderSent(m) else PayloadSent(m))
      && s'.requested == s.requested
      && (!raised ==> s'.acquired == s.acquired)
      && (s.torn == None && !raised && n == |Encode(m)| ==> s'.torn == None)
  {
    hide IsRun, MaySend, Hdr;
    var t, m := e.thread, e.message;
    var size := |m.payload|;
    if size >= TWO_32 {
      states', steps' := Continue(program, states, steps, WriteHeader(t, 0, true));
    } else if n < HEADER_SIZE || m.payload == [] {
      states', steps' := Continue(program, states, steps, WriteHeader(t, n, raised));
    } else {
      states', steps' := Continue(program, states, steps, WriteHeader(t, HEADER_SIZE, false));
      states', steps' := Continue(program, states', steps', WritePayload(t, n - HEADER_SIZE, raised));
    }
  }

  /** Every order of sends is possible: any interleaving of `Main`'s messages, in program order
      and up to its last, with the others' own messages has a run that puts exactly these frames
      on the wire and leaves every thread ready for the next. */
  lemma {:induction false} EveryOrderIsSent(program: seq<Message>, es: seq<Entry>)
    returns (states: seq<State>, steps: seq<Step>)
    requires forall i :: 0 <= i < |es| ==> |es[i].message.payload| < 0x1_0000_0000
    requires forall i :: 0 <= i < |es| && !es[i].thread.Main? ==> IsNext(program, 0, es[i])
    requires By(es, Main) <= program
    ensures IsRun(program, states, steps) && |states| == |steps| + 1
    ensures var s := states[|steps|];
      && AllIdle(s) && s.torn == None && s.requested == |By(es, Main)| && s.acquired == es
      && AllSendable(Messages(es)) && s.wire == EncodeAll(Messages(es))
  {
    hide IsRun, MaySend, Encode, EncodeAll, Messages, By;
    if es == [] {
      var s := State(map[Main := Idle, Heartbeat := Idle, Reconnect := Idle], None, [], [], 0, None);
      forall t: Thread ensures t in s.stages && s.stages[t] == Idle {
        if t == Main {} else if t == Heartbeat {} else { assert t == Reconnect; }
      }
      states, steps := [s], [];
      StartOfRun(program, s);
      NothingSent(program);
    } else {
      var front, e := es[..|es| - 1], es[|es| - 1];
      assert es == front + [e];
      ByAppend(front, e, Main);
      states, steps := EveryOrderIsSent(program, front);
      MessagesOfAppend(front, e);
      EncodeAllAppend(Messages(front), e.message);
      var s := states[|steps|];
      assert IsNext(program, s.requested, e);
      states, steps := LockTaken(program, states, steps, e);
      var n := |Encode(e.message)|;
      assert Encode(e.message)[..n] == Encode(e.message);
      EncodeIsHeaderThenPayload(e.message);
      states, steps := FramePartlyWritten(program, states, steps, e, n, false);
      states, steps := Continue(program, states, steps, Release(e.thread));
    }
  }

  lemma NothingSent(program: seq<Message>)
    ensures By([], Main) == [] && Messages([]) == [] && EncodeAll([]) == []
  {
  }

  /** The steps with which the lock holder comes to the end of its send, all of them clean
      if the message can be sent at all. */
  lemma HolderDone(program: seq<Message>, states: seq<State>, steps: seq<Step>)
    returns (states': seq<State>, steps': seq<Step>)
    requires IsRun(program, states, steps) && Framed(states[|steps|])
    ensures IsRun(program, states', steps') && |states'| == |steps'| + 1
    ensures var s, s' := states[|steps|], states'[|steps'|];
      && s'.lock == None && s'.requested == s.requested
      && (forall t: Thread :: t in s.stages && t in s'.stages && (s.lock != Some(t) ==> s'.stages[t] == s.stages[t]))
    decreases if states[|steps|].lock == None then 0 else Remaining(states[|steps|].stages[states[|steps|].lock.value])
  {
    hide IsRun, MaySend, OnWire, Hdr, Messages, Harmless;
    RunLength(program, states, steps);
    var s := states[|steps|];
    if s.lock == None {
      states', steps' := states, steps;
    } else {
      var t := s.lock.value;
      HolderReleases(program, s, t);
      var step: Step :| step.t == t && Enabled(program, s, step);
      states', steps' := Continue(program, states, steps, step);
      StepKeepsFramed(program, s, step);
      states', steps' := HolderDone(program, states', steps');
    }
  }

  /** Whoever waits, or is ready to send, can be the next to get the lock, whatever the others do. */
  lemma AnyoneMayBeNext(program: seq<Message>, states: seq<State>, steps: seq<Step>, e: Entry)
    returns (states': seq<State>, steps': seq<Step>)
    requires IsRun(program, states, steps)
    requires var s := states[|steps|];
      e.thread in s.stages &&
      (s.stages[e.thread] == Waiting(e.message) || (s.stages[e.thread] == Idle && IsNext(program, s.requested, e)))
    ensures IsRun(program, states', steps') && |states'| == |steps'| + 1
    ensures var s' := states'[|steps'|];
      && s'.lock == Some(e.thread)
      && e.thread in s'.stages && s'.stages[e.thread] == Locked(e.message)
      && s'.acquired != [] && s'.acquired[|s'.acquired| - 1] == e
  {
    hide IsRun, MaySend, IsNext, OnWire, Hdr, Messages, Harmless;
    RunLength(program, states, steps);
    RunKeepsInv(program, states, steps, |steps|);
    states', steps' := HolderDone(program, states, steps);
    var s := states'[|steps'|];
    if s.stages[e.thread] == Idle {
      NextMaySend(program, s.requested, e);
      states', steps' := Continue(program, states', steps', Request(e.thread, e.message));
    }
    states', steps' := Continue(program, states', steps', Acquire(e.thread));
  }

  /** A run in which a frame is torn and another thread goes on: a heartbeat's header is written
      half and raises, the reconnect loop sends its header.  The dongle decodes a message that
      nobody has sent, with the second header's magic word for its type. */
  lemma TornFrameIsMisread() returns (states: seq<State>, steps: seq<Step>)
    ensures IsRun([], states, steps) && Framed(states[|steps|])
    ensures var s := states[|steps|];
      && Messages(Settled(s)) == []
      && Decode(s.wire).messages == [Message(MAGIC, [])]
  {
    hide IsRun, Framed, Messages, Hdr, Pack, Decode, Settled;
    var beat, connect := Message(HEARTBEAT, []), Message(COMMAND, Pack(WIFI_CONNECT));
    var s := State(map[Main := Idle, Heartbeat := Idle, Reconnect := Idle], None, [], [], 0, None);
    states, steps := [s], [];
    forall t: Thread ensures t in s.stages && s.stages[t] == Idle {
      if t == Main {} else if t == Heartbeat {} else { assert t == Reconnect; }
    }
    StartOfRun([], s);
    states, steps := Continue([], states, steps, Request(Heartbeat, beat));
    states, steps := Continue([], states, steps, Acquire(Heartbeat));
    states, steps := Continue([], states, steps, WriteHeader(Heartbeat, 8, true));
    states, steps := Continue([], states, steps, Request(Reconnect, connect));
    states, steps := Continue([], states, steps, Acquire(Reconnect));
    states, steps := Continue([], states, steps, WriteHeader(Reconnect, HEADER_SIZE, false));
    s := states[|steps|];
    var half, whole := Hdr(HEARTBEAT, 0)[..8], Hdr(COMMAND, 4);
    assert s.wire == half + whole by {
      assert whole[..HEADER_SIZE] == whole && [] + half == half;
    }
    HeaderInHeader(HEARTBEAT, COMMAND, 4);
    assert Settled(s) == [] by { SettledIsFront(s); }
    RunKeepsInv([], states, steps, |steps|);
  }

  lemma SettledIsFront(s: State)
    requires s.lock.Some? && |s.acquired| == 1
    ensures Settled(s) == [] && Messages([]) == []
  {
  }

  lemma RunLength(program: seq<Message>, states: seq<State>, steps: seq<Step>)
    requires IsRun(program, states, steps)
    ensures |states| == |steps| + 1
  {
  }

  lemma StartOfRun(program: seq<Message>, s: State)
    requires Init(s)
    ensures IsRun(program, [s], [])
  {
  }

  lemma Continue(program: seq<Message>, states: seq<State>, steps: seq<Step>, step: Step)
    returns (states': seq<State>, steps': seq<Step>)
    requires IsRun(program, states, steps)
    requires var s := states[|steps|]; step.t in s.stages && Enabled(program, s, step)
    ensures IsRun(program, states', steps') && |states'| == |steps'| + 1 == |states| + 1
    ensures states'[|steps'|] == Take(program, states[|steps|], step)
  {
    hide Enabled, Take, Init;
    steps' := steps + [step];
    states' := states + [Take(program, states[|steps|], step)];
  }

  lemma HeaderInHeader(t: u32, t': u32, n: u32)
    ensures Decode(Hdr(t, 0)[..8] + Hdr(t', n)).messages == [Message(MAGIC, [])]
  {
    hide Pack, Unpack, Complement;
    var h, h' := Hdr(t, 0), Hdr(t', n);
    var b := h[..8] + h';
    var raw := b[..HEADER_SIZE];
    assert h[..4] == Pack(MAGIC) && h[4..8] == Pack(0) && h'[..4] == Pack(MAGIC);
    assert raw[..4] == h[..4] && raw[4..8] == h[4..8] && raw[8..12] == h'[..4];
    UnpackPack(MAGIC);
    UnpackPack(0);
    assert ParseHeader(raw) == Header(MAGIC, 0, MAGIC, Unpack(raw[12..]));
    assert |b[HEADER_SIZE..]| < HEADER_SIZE;
    assert b[HEADER_SIZE..HEADER_SIZE] == [];
  }

  /** What the other end makes of a lost payload: it takes the payload from whatever is written next. */
  lemma LostPayloadSwallowsNext(m: Message, next: seq<byte>)
    requires Sendable(m) && |m.payload| <= |next|
    ensures var n := |m.payload|;
      Decode(Hdr(m.mtype, n) + next)
        == Decoded([Message(m.mtype, next[..n])] + Decode(next[n..]).messages, Decode(next[n..]).rest)
  {
    hide Decode, Hdr;
    var n := |m.payload|;
    var wrong := Message(m.mtype, next[..n]);
    assert Hdr(m.mtype, n) + next == Encode(wrong) + next[n..];
    DecodeFrame(wrong, next[n..]);
  }
}
