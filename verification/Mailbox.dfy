/** The multiplexing driver refines one unbounded mailbox per session: no packet of a session is
    lost, duplicated or reordered, whatever the other sessions do. */
module Mailbox {
  import opened Wire
  import opened Header
  import opened Multiplex

  /** A session seen on its own: not announced, announced with packets waiting, registered with
      the packets its reader was given, or registered with a reader that is gone. */
  datatype Box = Unannounced | Waiting(inbox: seq<Packet>) | Registered(inbox: seq<Packet>) | Deserted

  /** A session open ack that names its session. */
  predicate Announces(p: Packet) { p.header.messageType == 0x08 && p.header.sessionId != 0 }

  /** What a reader holds that was given the packets. */
  function Given(ps: seq<Packet>): seq<Delivery> { seq(|ps|, i requires 0 <= i < |ps| => Data(ps[i])) }

  /** The bytes that packets take in a buffer: metadata, body and a 40-byte header each. */
  function Bytes(ps: seq<Packet>): nat {
    if ps == [] then 0
    else
      var last := ps[|ps| - 1];
      Bytes(ps[..|ps| - 1]) + |last.metadata| + |last.body| + 40
  }

  function BoxIncoming(b: Box, p: Packet): Box {
    match b
    case Unannounced => if Announces(p) then Waiting([]) else b
    case Waiting(inbox) => if Announces(p) then b else Waiting(inbox + [p])
    case Registered(inbox) => Registered(inbox + [p])
    case Deserted => Unannounced
  }

  function BoxRegister(b: Box, readerAlive: bool): Box {
    if b.Registered? || b.Deserted? then b
    else if !readerAlive then Deserted
    else Registered(if b.Waiting? then b.inbox else [])
  }

  function BoxStep(b: Box, e: Event, s: u32): Box {
    match e
    case Write(p, _) => if Announces(p) && p.header.sessionId == s && b.Unannounced? then Waiting([]) else b
    case Incoming(p) => if p.header.sessionId == s then BoxIncoming(b, p) else b
    case Register(t, alive) => if t == s then BoxRegister(b, alive) else b
    case Unregister(t) => if t == s then Unannounced else b
    case ReaderDropped(t) => if t == s && b.Registered? then Deserted else b
    case _ => b
  }

  function BoxOf(es: seq<Event>, s: u32): Box {
    if es == [] then Unannounced else BoxStep(BoxOf(es[..|es| - 1], s), es[|es| - 1], s)
  }

  /** The driver's state of session `s` is the mailbox `b`. */
  ghost predicate Represents(d: Driver, b: Box, s: u32)
    requires Bounded(d)
  {
    match b
    case Unannounced => s !in d.sessions && s !in d.awaiting && s !in d.pending
    case Waiting(inbox) => s !in d.sessions && s in d.awaiting && Buffered(d, s).packets == inbox
    case Registered(inbox) =>
      s in d.sessions && d.sessions[s] !in d.dropped && d.logs[d.sessions[s]] == Given(inbox)
    case Deserted => s in d.sessions && d.sessions[s] in d.dropped
  }

  /** Nothing the mailbox of `s` depends on differs between two driver states. */
  ghost predicate SameView(d: Driver, e: Driver, s: u32)
    requires Bounded(d) && Bounded(e)
  {
    && (s in d.sessions <==> s in e.sessions) && (s in d.awaiting <==> s in e.awaiting)
    && (s in d.pending <==> s in e.pending) && (s in d.pending ==> d.pending[s] == e.pending[s])
    && (s in d.sessions ==>
          var ch := d.sessions[s];
          e.sessions[s] == ch && (ch in d.dropped <==> ch in e.dropped) && d.logs[ch] == e.logs[ch])
  }

  lemma {:induction false} ForeignDelivery(d: Driver, t: u32, s: u32, p: Packet)
    requires Bounded(d) && Distinct(d) && t in d.sessions && s != t
    ensures var ch := d.sessions[t];
      SameView(d, d.(logs := d.logs[ch := d.logs[ch] + [Data(p)]]), s) && SameView(d, Forget(d, t), s)
  {
    if s in d.sessions { assert d.sessions[t] != d.sessions[s]; }
  }

  lemma {:induction false} ForeignIncoming(d: Driver, p: Packet, s: u32)
    requires Bounded(d) && Distinct(d) && p.header.sessionId != s && s != 0 && Active(d) && Active(StepIncoming(d, p))
    ensures Bounded(StepIncoming(d, p)) && SameView(d, StepIncoming(d, p), s)
  {
    var a, t := Announce(d, p), p.header.sessionId;
    assert SameView(d, a, s);
    var next := StepIncoming(d, p);
    if t in d.sessions && t != 0 {
      ForeignDelivery(a, t, s, p);
    } else if t != 0 && !Announces(p) {
      assert next == a.(pending := a.pending[t := Push(Buffered(a, t), p).value]);
    } else {
      assert next == ToControl(a, p);
    }
  }

  lemma {:induction false} OwnIncoming(d: Driver, p: Packet, b: Box)
    requires Bounded(d) && p.header.sessionId != 0 && Active(d) && Active(StepIncoming(d, p))
    requires Represents(d, b, p.header.sessionId)
    ensures Bounded(StepIncoming(d, p)) && Represents(StepIncoming(d, p), BoxIncoming(b, p), p.header.sessionId)
  {
    var s := p.header.sessionId;
    if b.Registered? {
      assert Given(b.inbox + [p]) == Given(b.inbox) + [Data(p)];
    }
  }

  lemma {:induction false} RegisterRefines(d: Driver, t: u32, alive: bool, b: Box, s: u32)
    requires Bounded(d) && Distinct(d) && Active(d) && s != 0 && Represents(d, b, s)
    ensures Bounded(StepRegister(d, t, alive))
    ensures Represents(StepRegister(d, t, alive), BoxStep(b, Register(t, alive), s), s)
  {
    if t != s {
      assert SameView(d, StepRegister(d, t, alive), s);
    }
  }

  lemma {:induction false} StepRefines(d: Driver, e: Event, b: Box, s: u32)
    requires Bounded(d) && Distinct(d) && Active(d) && s != 0 && Represents(d, b, s)
    requires Active(Step(d, e))
    ensures Bounded(Step(d, e)) && Represents(Step(d, e), BoxStep(b, e, s), s)
  {
    match e {
      case Incoming(p) => if p.header.sessionId == s { OwnIncoming(d, p, b); } else { ForeignIncoming(d, p, s); }
      case Register(t, alive) => RegisterRefines(d, t, alive, b, s);
      case ReaderDropped(t) =>
        if t != s && t in d.sessions && s in d.sessions { assert d.sessions[t] != d.sessions[s]; }
      case _ =>
    }
  }

  ghost predicate Frozen(d: Driver, e: Driver) {
    && |d.logs| <= |e.logs| && (forall i | 0 <= i < |d.logs| :: e.logs[i] == d.logs[i])
    && d.control == e.control
  }

  lemma {:induction false} StaysStopped(d: Driver, e: Event)
    requires Bounded(d) && !Active(d)
    ensures !Active(Step(d, e)) && Frozen(d, Step(d, e))
  {
  }

  /** On every run during which the driver keeps reading, the driver's state of every session is
      the session's mailbox: what a registered reader was given, or what is buffered for a session
      that is not registered yet, is exactly and in order what arrived for it. */
  lemma {:induction false} DriverRefinesMailbox(es: seq<Event>, s: u32)
    requires s != 0 && Active(Run(es))
    ensures Represents(Run(es), BoxOf(es, s), s)
  {
    if es != [] {
      var n := |es| - 1;
      var d := Run(es[..n]);
      if !Active(d) { StaysStopped(d, es[n]); }
      RunValid(es[..n]);
      DriverRefinesMailbox(es[..n], s);
      StepRefines(d, es[n], BoxOf(es[..n], s), s);
    }
  }

  // ---------------------------------------------------------------- sessions do not interfere

  predicate Concerns(e: Event, s: u32) {
    match e
    case Write(p, _) => p.header.sessionId == s
    case Incoming(p) => p.header.sessionId == s
    case Register(t, _) => t == s
    case Unregister(t) => t == s
    case ReaderDropped(t) => t == s
    case _ => false
  }

  function OnlyFor(es: seq<Event>, s: u32): seq<Event> {
    if es == [] then []
    else
      var n := |es| - 1;
      OnlyFor(es[..n], s) + if Concerns(es[n], s) then [es[n]] else []
  }

  lemma {:induction false} BoxOfOwnEvents(es: seq<Event>, s: u32)
    ensures BoxOf(es, s) == BoxOf(OnlyFor(es, s), s)
  {
    if es != [] {
      var n := |es| - 1;
      BoxOfOwnEvents(es[..n], s);
      var own := OnlyFor(es[..n], s);
      if Concerns(es[n], s) {
        assert (own + [es[n]])[..|own|] == own;
      } else {
        assert OnlyFor(es, s) == own;
      }
    }
  }

  /** Two runs with the same events for a session give its reader the same packets in the same
      order, even if everything else about the connection differs. */
  lemma {:induction false} ReadersSeeOnlyTheirSession(es: seq<Event>, fs: seq<Event>, s: u32)
    requires s != 0 && Active(Run(es)) && Active(Run(fs)) && OnlyFor(es, s) == OnlyFor(fs, s)
    requires BoxOf(es, s).Registered?
    ensures var d, e := Run(es), Run(fs);
      s in d.sessions && s in e.sessions && d.logs[d.sessions[s]] == e.logs[e.sessions[s]]
  {
    BoxOfOwnEvents(es, s);
    BoxOfOwnEvents(fs, s);
    DriverRefinesMailbox(es, s);
    DriverRefinesMailbox(fs, s);
  }

  // ---------------------------------------------------------------- the control reader

  lemma {:induction false} ControlReaderStep(d: Driver, e: Event)
    requires Bounded(d) && Active(d)
    ensures Step(d, e).controlAlive <==> d.controlAlive && e != ControlReaderDropped
  {
  }

  lemma {:induction false} ControlReaderHistory(es: seq<Event>)
    requires Active(Run(es))
    ensures Run(es).controlAlive <==> ControlReaderDropped !in es
  {
    if es != [] {
      var n := |es| - 1;
      if !Active(Run(es[..n])) { StaysStopped(Run(es[..n]), es[n]); }
      ControlReaderHistory(es[..n]);
      ControlReaderStep(Run(es[..n]), es[n]);
      assert es == es[..n] + [es[n]];
    }
  }

  predicate Unclaimed(b: Box) { b.Unannounced? || b.Waiting? }

  /** After `es`, the packet of `e` is for the control reader: it has no session, or it announces one
      that is not registered. */
  predicate ForControl(es: seq<Event>, e: Event) {
    && e.Incoming? && ControlReaderDropped !in es
    && (e.packet.header.sessionId == 0 || (Announces(e.packet) && Unclaimed(BoxOf(es, e.packet.header.sessionId))))
  }

  function ControlInbox(es: seq<Event>): seq<Packet> {
    if es == [] then []
    else
      var n := |es| - 1;
      ControlInbox(es[..n]) + if ForControl(es[..n], es[n]) then [es[n].packet] else []
  }

  lemma {:induction false} ControlStep(d: Driver, e: Event)
    requires Bounded(d) && 0 !in d.sessions && Active(d) && Active(Step(d, e))
    ensures Step(d, e).control == d.control +
      if e.Incoming? && d.controlAlive && (e.packet.header.sessionId == 0 || Announces(e.packet))
        && e.packet.header.sessionId !in d.sessions
      then [Data(e.packet)] else []
  {
  }

  lemma {:induction false} GivenAppend(ps: seq<Packet>, p: Packet)
    ensures Given(ps + [p]) == Given(ps) + [Data(p)]
  {
  }

  /** While the driver reads, the control reader has been given, in order, exactly the packets without
      a session and the open acks of sessions that were not registered. */
  lemma {:induction false} ControlReaderSeesItsPackets(es: seq<Event>)
    requires Active(Run(es))
    ensures Run(es).control == Given(ControlInbox(es))
  {
    if es != [] {
      var n := |es| - 1;
      var d, e := Run(es[..n]), es[n];
      if !Active(d) { StaysStopped(d, e); }
      RunValid(es[..n]);
      ControlReaderSeesItsPackets(es[..n]);
      ControlReaderHistory(es[..n]);
      ControlStep(d, e);
      if e.Incoming? {
        if e.packet.header.sessionId != 0 { DriverRefinesMailbox(es[..n], e.packet.header.sessionId); }
        GivenAppend(ControlInbox(es[..n]), e.packet);
      }
    }
  }

  // ---------------------------------------------------------------- when the connection fails

  /** The packet's session is neither registered nor announced, and it does not announce one. */
  predicate Stranger(b: Box, p: Packet) { p.header.sessionId != 0 && !Announces(p) && b.Unannounced? }

  /** The packet does not fit behind what waits for its session. */
  predicate Overflows(b: Box, p: Packet) {
    && p.header.sessionId != 0 && !Announces(p) && b.Waiting?
    && (|b.inbox| >= 4096 || Bytes(b.inbox + [p]) > 8 * 1024 * 1024)
  }

  /** The control reader is gone and no session is registered. */
  ghost predicate NobodyReads(es: seq<Event>) {
    ControlReaderDropped in es && forall t: u32 :: t != 0 ==> Unclaimed(BoxOf(es, t))
  }

  lemma {:induction false} RegisteredIff(es: seq<Event>, t: u32)
    requires Active(Run(es)) && t != 0
    ensures t in Run(es).sessions <==> !Unclaimed(BoxOf(es, t))
  {
    DriverRefinesMailbox(es, t);
  }

  lemma {:induction false} NobodyReadsIff(es: seq<Event>)
    requires Active(Run(es))
    ensures NobodyReads(es) <==> !Run(es).controlAlive && Run(es).sessions == map[]
  {
    RunValid(es);
    ControlReaderHistory(es);
    var sessions := Run(es).sessions;
    if sessions == map[] {
      forall t: u32 | t != 0 ensures Unclaimed(BoxOf(es, t)) { RegisteredIff(es, t); }
    } else {
      var t: u32 :| t in sessions;
      RegisteredIff(es, t);
    }
  }

  lemma {:induction false} WaitingBuffer(es: seq<Event>, s: u32)
    requires Active(Run(es)) && s != 0 && BoxOf(es, s).Waiting?
    ensures Buffered(Run(es), s) == Pending(BoxOf(es, s).inbox, Bytes(BoxOf(es, s).inbox))
  {
    RunValid(es);
    DriverRefinesMailbox(es, s);
    BytesTotal(BoxOf(es, s).inbox);
  }

  lemma {:induction false} BytesTotal(ps: seq<Packet>)
    ensures TotalSize(ps) == Bytes(ps)
  {
    if ps != [] { BytesTotal(ps[..|ps| - 1]); }
  }

  lemma {:induction false} BytesAppend(ps: seq<Packet>, p: Packet)
    ensures Bytes(ps + [p]) == Bytes(ps) + |p.metadata| + |p.body| + 40
  {
    assert (ps + [p])[..|ps|] == ps;
  }

  lemma {:induction false} PacketFailure(es: seq<Event>, p: Packet)
    requires Active(Run(es))
    ensures var b := BoxOf(es, p.header.sessionId);
      FailureOf(Run(es), Incoming(p)) ==
        if Stranger(b, p) then Some(NoSuchSession(p.header.sessionId))
        else if Overflows(b, p) then Some(BufferLimit)
        else None
  {
    var s := p.header.sessionId;
    if s != 0 {
      DriverRefinesMailbox(es, s);
      if BoxOf(es, s).Waiting? {
        WaitingBuffer(es, s);
        BytesAppend(BoxOf(es, s).inbox, p);
      }
    }
  }

  lemma {:induction false} StopsReadingIff(d: Driver, p: Packet)
    requires Bounded(d) && Active(d) && 0 !in d.sessions
    ensures !Active(Step(d, Incoming(p))) <==>
      || IncomingFailure(d, p).Some?
      || ((p.header.sessionId == 0 || Announces(p)) && !d.controlAlive && d.sessions == map[])
  {
  }

  /** An incoming packet ends the reading of the connection exactly when its session is unknown, its
      session's buffer is full, or it is for a control reader that is gone while no session is
      registered. In the first two cases it is reported to every reader, with that reason. */
  lemma {:induction false} PacketEndsConnectionIff(es: seq<Event>, p: Packet)
    requires Active(Run(es))
    ensures var b := BoxOf(es, p.header.sessionId);
      && (!Active(Step(Run(es), Incoming(p))) <==>
            Stranger(b, p) || Overflows(b, p) || ((p.header.sessionId == 0 || Announces(p)) && NobodyReads(es)))
      && FailureOf(Run(es), Incoming(p)) ==
           (if Stranger(b, p) then Some(NoSuchSession(p.header.sessionId))
            else if Overflows(b, p) then Some(BufferLimit)
            else None)
  {
    RunValid(es);
    PacketFailure(es, p);
    NobodyReadsIff(es);
    StopsReadingIff(Run(es), p);
  }

  /** After `es`, the event ends the reading of the connection. */
  ghost predicate EndsReading(es: seq<Event>, e: Event) {
    match e
    case Write(_, delivered) => !delivered
    case Incoming(p) =>
      var b := BoxOf(es, p.header.sessionId);
      Stranger(b, p) || Overflows(b, p) || ((p.header.sessionId == 0 || Announces(p)) && NobodyReads(es))
    case IncomingError => true
    case CloseCommand => true
    case CommandsGone => true
    case _ => false
  }

  /** The failure that the event is reported as. */
  function ReportedAs(es: seq<Event>, e: Event): Option<Reason> {
    match e
    case Write(_, delivered) => if delivered then None else Some(TransportFailed)
    case Incoming(p) =>
      var b := BoxOf(es, p.header.sessionId);
      if Stranger(b, p) then Some(NoSuchSession(p.header.sessionId))
      else if Overflows(b, p) then Some(BufferLimit)
      else None
    case IncomingError => Some(TransportFailed)
    case _ => None
  }

  /** Which events end the reading of a connection, which failure they are reported as, and which of them
      leave the driver serving commands: a failed read and a packet of an unknown session. */
  lemma {:induction false} EventEndsConnectionIff(es: seq<Event>, e: Event)
    requires Active(Run(es))
    ensures var next := Step(Run(es), e);
      && (!Active(next) <==> EndsReading(es, e))
      && FailureOf(Run(es), e) == ReportedAs(es, e)
      && (next.running <==>
            || !EndsReading(es, e) || e.IncomingError?
            || (e.Incoming? && Stranger(BoxOf(es, e.packet.header.sessionId), e.packet)))
  {
    if e.Incoming? {
      PacketEndsConnectionIff(es, e.packet);
      if FailureOf(Run(es), e).Some? { FailureBroadcasts(Run(es), e, FailureOf(Run(es), e).value); }
      else { QuietStop(Run(es), e.packet); }
    }
  }

  lemma {:induction false} QuietStop(d: Driver, p: Packet)
    requires Bounded(d) && Active(d) && IncomingFailure(d, p).None?
    ensures StepIncoming(d, p).running <==> Active(StepIncoming(d, p))
  {
  }

  function PacketFor(s: u32, messageType: MessageType, body: seq<byte>): Packet {
    Packet(CommonHeader(1, 0, messageType, 40, 0, 0, 0, s, 0, 0, 0, 0), [], body)
  }

  lemma {:induction false} RunTwo(a: Event, b: Event)
    ensures Run([a, b]) == Step(Step(NewDriver(), a), b)
    ensures forall s: u32 :: BoxOf([a, b], s) == BoxStep(BoxStep(Unannounced, a, s), b, s)
  {
    assert [a][..0] == [] && [a, b][..1] == [a];
    assert Run([a]) == Step(NewDriver(), a);
    forall s: u32 ensures BoxOf([a, b], s) == BoxStep(BoxStep(Unannounced, a, s), b, s) {
      assert BoxOf([a], s) == BoxStep(Unannounced, a, s);
    }
  }

  /** A late packet is harmless while a session's reader is merely gone, but fails the whole
      connection once the session has been unregistered. */
  lemma {:induction false} LatePackets()
    ensures var late := Incoming(PacketFor(7, 0x12, []));
      && Active(Step(Run([Register(7, true), ReaderDropped(7)]), late))
      && FailureOf(Run([Register(7, true), Unregister(7)]), late) == Some(NoSuchSession(7))
      && !Active(Step(Run([Register(7, true), Unregister(7)]), late))
  {
    RunTwo(Register(7, true), ReaderDropped(7));
    RunTwo(Register(7, true), Unregister(7));
    PacketEndsConnectionIff([Register(7, true), ReaderDropped(7)], PacketFor(7, 0x12, []));
    PacketEndsConnectionIff([Register(7, true), Unregister(7)], PacketFor(7, 0x12, []));
  }

  function OneRegisteredOneAnnounced(): seq<Event> {
    [Register(9, true), Write(PacketFor(7, SESSION_OPEN_ACK, []), true)]
  }

  lemma {:induction false} OneWaits()
    ensures var es := OneRegisteredOneAnnounced();
      && Active(Run(es)) && BoxOf(es, 7) == Waiting([]) && BoxOf(es, 9) == Registered([])
  {
    var es := OneRegisteredOneAnnounced();
    RunTwo(es[0], es[1]);
    assert es == [es[0], es[1]];
  }

  /** A packet that overflows the buffer of session 7 ends the connection for the reader of session 9. */
  lemma {:induction false} OverflowFailsOtherSessions(body: seq<byte>)
    requires |body| == 8 * 1024 * 1024
    ensures var es := OneRegisteredOneAnnounced();
      var d := Step(Run(es), Incoming(PacketFor(7, 0x12, body)));
      !Active(d) && 9 in d.sessions && d.sessions[9] < |d.logs| && d.logs[d.sessions[9]] == [Failed(BufferLimit)]
  {
    var es, p := OneRegisteredOneAnnounced(), PacketFor(7, 0x12, body);
    OneWaits();
    BytesAppend([], p);
    PacketEndsConnectionIff(es, p);
    DriverRefinesMailbox(es, 9);
    FailureBroadcasts(Run(es), Incoming(p), BufferLimit);
    BroadcastReaches(Run(es), BoxOf(es, 9), 9, BufferLimit);
    assert Given([]) + [Failed(BufferLimit)] == [Failed(BufferLimit)];
  }

  // ---------------------------------------------------------------- what readers are told

  lemma {:induction false} FailureBroadcasts(d: Driver, e: Event, r: Reason)
    requires Bounded(d) && FailureOf(d, e) == Some(r)
    ensures var next := Step(d, e);
      && !Active(next) && next.logs == Broadcast(d, r).logs && next.control == Broadcast(d, r).control
      && next.sessions == d.sessions && next.dropped == d.dropped
      && (next.running ==> next.pending == d.pending && next.awaiting == d.awaiting)
      && (next.running <==> e.IncomingError? || r.NoSuchSession?)
      && (next.running ==> next.failure == Some(r))
  {
  }

  lemma {:induction false} BroadcastReaches(d: Driver, b: Box, s: u32, r: Reason)
    requires Bounded(d) && (b.Registered? ==> Represents(d, b, s))
    ensures b.Registered? ==> Broadcast(d, r).logs[d.sessions[s]] == Given(b.inbox) + [Failed(r)]
  {
    if b.Registered? { assert LiveChannel(d, d.sessions[s]); }
  }

  lemma {:induction false} RunThen(es: seq<Event>, e: Event)
    ensures Run(es + [e]) == Step(Run(es), e)
  {
    assert (es + [e])[..|es|] == es;
  }

  /** Every event that fails a reading driver, whatever the cause, seals its channels for good: in every
      continuation each live reader has exactly its mailbox followed by that failure, and so has the
      control reader. */
  lemma {:induction false} FailureSealsMailboxes(es: seq<Event>, e: Event, more: seq<Event>, s: u32, r: Reason)
    requires s != 0 && FailureOf(Run(es), e) == Some(r)
    ensures var d, now, b := Run(es), Run(es + [e] + more), BoxOf(es, s);
      && (b.Registered? ==>
            && s in d.sessions && d.sessions[s] < |now.logs|
            && now.logs[d.sessions[s]] == Given(b.inbox) + [Failed(r)])
      && now.control == Given(ControlInbox(es)) + if ControlReaderDropped in es then [] else [Failed(r)]
  {
    var d := Run(es);
    DriverRefinesMailbox(es, s);
    ControlReaderHistory(es);
    ControlReaderSeesItsPackets(es);
    FailureBroadcasts(d, e, r);
    BroadcastReaches(d, BoxOf(es, s), s, r);
    RunThen(es, e);
    StoppedLogsAreFinal(es + [e], more);
  }

  /** A session of a driver that has failed but still serves commands: readers also hold the failure. */
  ghost predicate RepresentsFailed(d: Driver, b: Box, s: u32, r: Reason)
    requires Bounded(d)
  {
    match b
    case Unannounced => s !in d.sessions && s !in d.awaiting && s !in d.pending
    case Waiting(inbox) => s !in d.sessions && s in d.awaiting && Buffered(d, s).packets == inbox
    case Registered(inbox) =>
      s in d.sessions && d.sessions[s] !in d.dropped && d.logs[d.sessions[s]] == Given(inbox) + [Failed(r)]
    case Deserted => s in d.sessions && d.sessions[s] in d.dropped
  }

  /** After the failure packets are neither read nor written; registrations go on. */
  function LateBox(b: Box, more: seq<Event>, s: u32): Box {
    if more == [] then b
    else
      var n := |more| - 1;
      var before := LateBox(b, more[..n], s);
      if more[n].Write? || more[n].Incoming? then before else BoxStep(before, more[n], s)
  }

  predicate Ends(e: Event) { e.CloseCommand? || e.CommandsGone? }

  lemma {:induction false} LateRegister(d: Driver, t: u32, alive: bool, b: Box, s: u32, r: Reason)
    requires Bounded(d) && Distinct(d) && d.failure == Some(r) && s != 0 && RepresentsFailed(d, b, s, r)
    ensures Bounded(StepRegister(d, t, alive))
    ensures RepresentsFailed(StepRegister(d, t, alive), BoxStep(b, Register(t, alive), s), s, r)
  {
    if t != s { assert SameView(d, StepRegister(d, t, alive), s); }
  }

  lemma {:induction false} LateStep(d: Driver, e: Event, b: Box, s: u32, r: Reason)
    requires Bounded(d) && Distinct(d) && d.running && d.failure == Some(r) && s != 0 && !Ends(e)
    requires RepresentsFailed(d, b, s, r)
    ensures var now := if e.Write? || e.Incoming? then b else BoxStep(b, e, s);
      && Bounded(Step(d, e)) && Step(d, e).running && Step(d, e).failure == Some(r)
      && RepresentsFailed(Step(d, e), now, s, r)
  {
    match e {
      case Register(t, alive) => LateRegister(d, t, alive, b, s, r);
      case ReaderDropped(t) =>
        if t != s && t in d.sessions && s in d.sessions { assert d.sessions[t] != d.sessions[s]; }
      case _ =>
    }
  }

  /** A driver that failed but still serves commands goes on registering and forgetting sessions: what was
      waiting is given to whoever registers, followed by the failure, until commands end. */
  lemma {:induction false} FailedDriverServes(es: seq<Event>, e: Event, more: seq<Event>, s: u32, r: Reason)
    requires s != 0 && FailureOf(Run(es), e) == Some(r) && (e.IncomingError? || r.NoSuchSession?)
    requires forall i | 0 <= i < |more| :: !Ends(more[i])
    ensures var d := Run(es + [e] + more);
      d.running && d.failure == Some(r) && RepresentsFailed(d, LateBox(BoxOf(es, s), more, s), s, r)
  {
    if more == [] {
      DriverRefinesMailbox(es, s);
      FailureBroadcasts(Run(es), e, r);
      BroadcastReaches(Run(es), BoxOf(es, s), s, r);
      RunThen(es, e);
      assert es + [e] + more == es + [e];
    } else {
      var n := |more| - 1;
      FailedDriverServes(es, e, more[..n], s, r);
      var before := es + [e] + more[..n];
      assert es + [e] + more == before + [more[n]];
      RunThen(before, more[n]);
      RunValid(before);
      LateStep(Run(before), more[n], LateBox(BoxOf(es, s), more[..n], s), s, r);
    }
  }

  /** Some event of the run failed the driver with reason `r`. */
  ghost predicate Caused(es: seq<Event>, r: Reason) {
    exists k :: 0 <= k < |es| && FailureOf(Run(es[..k]), es[k]) == Some(r)
  }

  lemma {:induction false} CausedLater(es: seq<Event>, e: Event, r: Reason)
    requires Caused(es, r)
    ensures Caused(es + [e], r)
  {
    var k :| 0 <= k < |es| && FailureOf(Run(es[..k]), es[k]) == Some(r);
    assert (es + [e])[..k] == es[..k];
  }

  lemma {:induction false} CausedNow(es: seq<Event>, e: Event, r: Reason)
    requires FailureOf(Run(es), e) == Some(r)
    ensures Caused(es + [e], r)
  {
    assert (es + [e])[..|es|] == es && (es + [e])[|es|] == e;
  }

  ghost function LastReason(log: seq<Delivery>): Reason
    requires EndsFailed(log)
  {
    log[|log| - 1].reason
  }

  /** The log `ch` after a step: as before, or ending with the reason `now` or `earlier`. */
  ghost predicate CauseOf(d: Driver, next: Driver, ch: nat, now: Option<Reason>)
    requires ch < |next.logs|
  {
    EndsFailed(next.logs[ch]) ==>
      || (ch < |d.logs| && d.logs[ch] == next.logs[ch])
      || now == Some(LastReason(next.logs[ch])) || d.failure == Some(LastReason(next.logs[ch]))
  }

  lemma {:induction false} RegisterCause(d: Driver, s: u32, alive: bool, ch: nat)
    requires Bounded(d) && ch < |StepRegister(d, s, alive).logs|
    ensures CauseOf(d, StepRegister(d, s, alive), ch, None)
  {
  }

  /** A packet that fails nothing reaches at most the log of its session's live reader. */
  lemma {:induction false} IncomingLogs(d: Driver, p: Packet)
    requires Bounded(d) && IncomingFailure(d, p).None?
    ensures var t, next := p.header.sessionId, StepIncoming(d, p);
      && next.dropped == d.dropped
      && next.logs ==
           if t != 0 && t in d.sessions && d.sessions[t] !in d.dropped
           then d.logs[d.sessions[t] := d.logs[d.sessions[t]] + [Data(p)]]
           else d.logs
  {
    var a, t, next := Announce(d, p), p.header.sessionId, StepIncoming(d, p);
    if (t !in d.sessions || t == 0) && !Announces(p) && t != 0 {
      assert next == a.(pending := a.pending[t := Push(Buffered(a, t), p).value]);
    }
  }

  lemma {:induction false} IncomingCause(d: Driver, p: Packet, ch: nat)
    requires Bounded(d) && IncomingFailure(d, p).None? && ch < |StepIncoming(d, p).logs|
    ensures CauseOf(d, StepIncoming(d, p), ch, None)
  {
    IncomingLogs(d, p);
  }

  lemma {:induction false} StepCause(d: Driver, e: Event, ch: nat)
    requires Bounded(d) && ch < |Step(d, e).logs|
    ensures CauseOf(d, Step(d, e), ch, FailureOf(d, e))
  {
    if FailureOf(d, e).Some? {
      FailureBroadcasts(d, e, FailureOf(d, e).value);
    } else if d.running {
      match e {
        case Register(s, alive) => RegisterCause(d, s, alive, ch);
        case Incoming(p) => if Active(d) { IncomingCause(d, p, ch); }
        case _ =>
      }
    }
  }

  lemma {:induction false} StepFailure(d: Driver, e: Event)
    requires Bounded(d) && Step(d, e).failure.Some?
    ensures Step(d, e).failure == d.failure || Step(d, e).failure == FailureOf(d, e)
  {
  }

  lemma {:induction false} FailureHasACause(es: seq<Event>)
    requires Run(es).failure.Some?
    ensures Caused(es, Run(es).failure.value)
  {
    var n := |es| - 1;
    assert es == es[..n] + [es[n]];
    StepFailure(Run(es[..n]), es[n]);
    if Run(es[..n]).failure.Some? {
      FailureHasACause(es[..n]);
      CausedLater(es[..n], es[n], Run(es[..n]).failure.value);
    } else {
      CausedNow(es[..n], es[n], Run(es).failure.value);
    }
  }

  /** A reader is told of a failure only if some event of the run caused it. */
  lemma {:induction false} NoticesHaveACause(es: seq<Event>, ch: nat)
    requires ch < |Run(es).logs| && EndsFailed(Run(es).logs[ch])
    ensures Caused(es, LastReason(Run(es).logs[ch]))
  {
    var n := |es| - 1;
    var d, e, r := Run(es[..n]), es[n], LastReason(Run(es).logs[ch]);
    assert es == es[..n] + [e];
    StepCause(d, e, ch);
    if ch < |d.logs| && d.logs[ch] == Run(es).logs[ch] {
      NoticesHaveACause(es[..n], ch);
      CausedLater(es[..n], e, r);
    } else if FailureOf(d, e) == Some(r) {
      CausedNow(es[..n], e, r);
    } else {
      FailureHasACause(es[..n]);
      CausedLater(es[..n], e, r);
    }
  }

  /** A run has at most one failing event, so all readers are told the same. */
  lemma {:induction false} OneFailure(es: seq<Event>, j: nat, k: nat)
    requires j < |es| && k < |es| && FailureOf(Run(es[..j]), es[j]).Some? && FailureOf(Run(es[..k]), es[k]).Some?
    ensures j == k
  {
    if j < k { FailsBefore(es, j, k); }
    if k < j { FailsBefore(es, k, j); }
  }

  lemma {:induction false} FailsBefore(es: seq<Event>, j: nat, k: nat)
    requires j < k < |es| && FailureOf(Run(es[..j]), es[j]).Some?
    ensures FailureOf(Run(es[..k]), es[k]).None?
  {
    FailureBroadcasts(Run(es[..j]), es[j], FailureOf(Run(es[..j]), es[j]).value);
    assert es[..j + 1] == es[..j] + [es[j]];
    RunThen(es[..j], es[j]);
    StoppedLogsAreFinal(es[..j + 1], es[j + 1..k]);
    assert es[..j + 1] + es[j + 1..k] == es[..k];
  }

  /** A reader that is gone is given nothing more, and one that is gone when it registers nothing at all. */
  lemma {:induction false} GoneGetNothing(d: Driver, e: Event, ch: nat)
    requires Bounded(d) && Distinct(d) && ch in Step(d, e).dropped && ch < |Step(d, e).logs|
    ensures ch in d.dropped ==> Step(d, e).logs[ch] == d.logs[ch]
    ensures ch >= |d.logs| ==> Step(d, e).logs[ch] == []
  {
    if FailureOf(d, e).Some? {
      FailureBroadcasts(d, e, FailureOf(d, e).value);
    } else if e.Incoming? && Active(d) {
      IncomingLogs(d, e.packet);
    }
  }

  /** Once the driver has stopped reading, what existing readers have been given never changes. */
  lemma {:induction false} StoppedLogsAreFinal(es: seq<Event>, more: seq<Event>)
    requires !Active(Run(es))
    ensures !Active(Run(es + more)) && Frozen(Run(es), Run(es + more))
  {
    if more == [] {
      assert es + more == es;
    } else {
      var n := |more| - 1;
      StoppedLogsAreFinal(es, more[..n]);
      assert (es + more)[..|es + more| - 1] == es + more[..n];
      StaysStopped(Run(es + more[..n]), more[n]);
    }
  }

  /** Buffers stay within their limits on every run, and a reader never sees anything after a failure. */
  lemma {:induction false} LimitsAndNotices(es: seq<Event>)
    ensures var d := Run(es);
      && (forall s | s in d.pending ::
            |d.pending[s].packets| <= 4096 && Bytes(d.pending[s].packets) <= 8 * 1024 * 1024)
      && (forall ch | 0 <= ch < |d.logs| :: FailsLast(d.logs[ch]))
  {
    RunValid(es);
    forall s | s in Run(es).pending ensures Bytes(Run(es).pending[s].packets) == TotalSize(Run(es).pending[s].packets) {
      BytesTotal(Run(es).pending[s].packets);
    }
  }
}
