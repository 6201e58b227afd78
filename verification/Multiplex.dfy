/** The connection driver that multiplexes sessions over one transport, as a state machine over
    the events its select loop handles.

    The driver buffers packets of a session that is announced but not yet registered and hands
    them over on registration. The reference is a mailbox per session that knows nothing of
    buffers, limits or other sessions; the driver is proved to refine it on every run. */
module Multiplex {
  import opened Wire
  import opened Header

  const MAX_PRE_REGISTRATION_PACKETS := 4_096
  const MAX_PRE_REGISTRATION_BYTES := 8 * 1024 * 1024

  datatype Packet = Packet(header: CommonHeader, metadata: seq<byte>, body: seq<byte>) {
    function Session(): u32 { header.sessionId }
    predicate OpensSession() { header.messageType == SESSION_OPEN_ACK && header.sessionId != 0 }
    function Size(): nat { |metadata| + |body| + COMMON_HEADER_LEN }
  }

  datatype Reason = TransportFailed | NoSuchSession(id: u32) | BufferLimit

  /** What a channel carries to its reader. */
  datatype Delivery = Data(packet: Packet) | Failed(reason: Reason)

  datatype Pending = Pending(packets: seq<Packet>, bytes: nat)

  /** `sessions` maps a registered session to its channel, `logs` holds what each channel has been
      given since it was created, and `dropped` the channels whose reader is gone. */
  datatype Driver = Driver(
    running: bool, sessions: map<u32, nat>, awaiting: set<u32>, pending: map<u32, Pending>,
    failure: Option<Reason>, logs: seq<seq<Delivery>>, dropped: set<nat>, control: seq<Delivery>, controlAlive: bool)

  datatype Event =
    | Write(packet: Packet, delivered: bool)
    | Register(session: u32, readerAlive: bool)
    | Unregister(session: u32)
    | CloseCommand
    | CommandsGone
    | Incoming(packet: Packet)
    | IncomingError
    | ReaderDropped(session: u32)
    | ControlReaderDropped

  function NewDriver(): Driver { Driver(true, map[], {}, map[], None, [], {}, [], true) }

  /** The driver still reads its transport. */
  predicate Active(d: Driver) { d.running && d.failure.None? }

  // ---------------------------------------------------------------- one event

  function Push(p: Pending, packet: Packet): Option<Pending> {
    if |p.packets| >= MAX_PRE_REGISTRATION_PACKETS || p.bytes + packet.Size() > MAX_PRE_REGISTRATION_BYTES then None
    else Some(Pending(p.packets + [packet], p.bytes + packet.Size()))
  }

  function Buffered(d: Driver, s: u32): Pending {
    if s in d.pending then d.pending[s] else Pending([], 0)
  }

  predicate LiveChannel(d: Driver, ch: nat) { ch in d.sessions.Values && ch !in d.dropped }

  function Broadcast(d: Driver, r: Reason): (next: Driver)
    ensures |next.logs| == |d.logs|
  {
    d.(logs := seq(|d.logs|, i requires 0 <= i < |d.logs| =>
                   if LiveChannel(d, i) then d.logs[i] + [Failed(r)] else d.logs[i]),
       control := if d.controlAlive then d.control + [Failed(r)] else d.control)
  }

  function Forget(d: Driver, s: u32): Driver {
    d.(sessions := d.sessions - {s}, awaiting := d.awaiting - {s}, pending := d.pending - {s})
  }

  function Announce(d: Driver, p: Packet): Driver {
    if p.OpensSession() then d.(awaiting := d.awaiting + {p.Session()}) else d
  }

  function Deliveries(ps: seq<Packet>): seq<Delivery> {
    seq(|ps|, i requires 0 <= i < |ps| => Data(ps[i]))
  }

  function StepRegister(d: Driver, s: u32, readerAlive: bool): Driver {
    if s == 0 || s in d.sessions then d
    else
      var ch := |d.logs|;
      var handed := Deliveries(Buffered(d, s).packets) + if d.failure.Some? then [Failed(d.failure.value)] else [];
      Forget(d, s).(sessions := d.sessions[s := ch],
                    logs := d.logs + [if readerAlive then handed else []],
                    dropped := if readerAlive then d.dropped else d.dropped + {ch})
  }

  function ToControl(d: Driver, p: Packet): Driver {
    if d.controlAlive then d.(control := d.control + [Data(p)])
    else if d.sessions == map[] then d.(running := false)
    else d
  }

  /** Every registered session has a channel. */
  predicate Bounded(d: Driver) { forall s | s in d.sessions :: d.sessions[s] < |d.logs| }

  function StepIncoming(d: Driver, p: Packet): (next: Driver)
    requires Bounded(d)
    ensures Bounded(next)
  {
    var a, s := Announce(d, p), p.Session();
    if s == 0 then ToControl(a, p)
    else if s in a.sessions then
      var ch := a.sessions[s];
      if ch in a.dropped then Forget(a, s) else a.(logs := a.logs[ch := a.logs[ch] + [Data(p)]])
    else if p.OpensSession() then ToControl(a, p)
    else if s in a.awaiting then
      var grown := Push(Buffered(a, s), p);
      if grown.None? then Broadcast(a, BufferLimit).(running := false)
      else a.(pending := a.pending[s := grown.value])
    else Broadcast(a, NoSuchSession(s)).(failure := Some(NoSuchSession(s)))
  }

  function Step(d: Driver, e: Event): (next: Driver)
    requires Bounded(d)
    ensures Bounded(next)
  {
    if !d.running then d
    else
      match e
      case Write(p, delivered) =>
        if d.failure.Some? then d
        else if delivered then Announce(d, p)
        else Broadcast(Announce(d, p), TransportFailed).(running := false)
      case Register(s, alive) => StepRegister(d, s, alive)
      case Unregister(s) => Forget(d, s)
      case CloseCommand => d.(running := false)
      case CommandsGone => d.(running := false)
      case Incoming(p) => if d.failure.Some? then d else StepIncoming(d, p)
      case IncomingError =>
        if d.failure.Some? then d else Broadcast(d, TransportFailed).(failure := Some(TransportFailed))
      case ReaderDropped(s) => if s in d.sessions then d.(dropped := d.dropped + {d.sessions[s]}) else d
      case ControlReaderDropped => d.(controlAlive := false)
  }

  /** The failure that an incoming packet makes the driver report: its session is unknown, or the
      buffer of its announced session is full. */
  function IncomingFailure(d: Driver, p: Packet): Option<Reason> {
    var s := p.Session();
    if s == 0 || s in d.sessions || p.OpensSession() then None
    else if s !in d.awaiting then Some(NoSuchSession(s))
    else if Push(Buffered(d, s), p).None? then Some(BufferLimit)
    else None
  }

  /** The failure that an event makes the driver report to all its readers. */
  function FailureOf(d: Driver, e: Event): Option<Reason> {
    if !Active(d) then None
    else
      match e
      case Write(_, delivered) => if delivered then None else Some(TransportFailed)
      case Incoming(p) => IncomingFailure(d, p)
      case IncomingError => Some(TransportFailed)
      case _ => None
  }

  function Run(es: seq<Event>): (d: Driver)
    ensures Bounded(d)
  {
    if es == [] then NewDriver() else Step(Run(es[..|es| - 1]), es[|es| - 1])
  }

  // ---------------------------------------------------------------- what every run keeps

  function TotalSize(ps: seq<Packet>): nat {
    if ps == [] then 0 else TotalSize(ps[..|ps| - 1]) + ps[|ps| - 1].Size()
  }

  ghost predicate PendingOk(s: u32, p: Pending) {
    && p.bytes == TotalSize(p.packets) && p.bytes <= MAX_PRE_REGISTRATION_BYTES
    && |p.packets| <= MAX_PRE_REGISTRATION_PACKETS
    && forall i | 0 <= i < |p.packets| :: p.packets[i].Session() == s && !p.packets[i].OpensSession()
  }

  /** A failure notice can only be the last thing a reader sees. */
  ghost predicate FailsLast(log: seq<Delivery>) { forall i | 0 <= i < |log| - 1 :: log[i].Data? }

  ghost predicate EndsFailed(log: seq<Delivery>) { log != [] && log[|log| - 1].Failed? }

  ghost predicate Distinct(d: Driver) {
    && (forall s, t | s in d.sessions && t in d.sessions && d.sessions[s] == d.sessions[t] :: s == t)
    && (forall ch | ch in d.dropped :: ch < |d.logs|)
  }

  ghost predicate LogsOk(d: Driver) { forall i | 0 <= i < |d.logs| :: FailsLast(d.logs[i]) }

  ghost predicate Channels(d: Driver) { 0 !in d.sessions && Bounded(d) && Distinct(d) && LogsOk(d) }

  ghost predicate Buffers(d: Driver) {
    && 0 !in d.awaiting && d.pending.Keys <= d.awaiting && d.pending.Keys !! d.sessions.Keys
    && forall s | s in d.pending :: PendingOk(s, d.pending[s])
  }

  ghost predicate Notices(d: Driver)
    requires Channels(d)
  {
    && (Active(d) ==> forall s | s in d.sessions :: !EndsFailed(d.logs[d.sessions[s]]))
    && (d.running && d.failure.Some? ==>
          forall s | s in d.sessions && d.sessions[s] !in d.dropped :: EndsFailed(d.logs[d.sessions[s]]))
  }

  ghost predicate Valid(d: Driver) { Channels(d) && Buffers(d) && Notices(d) }

  lemma {:induction false} BroadcastLogs(d: Driver, r: Reason)
    requires Channels(d) && forall s | s in d.sessions :: !EndsFailed(d.logs[d.sessions[s]])
    ensures Channels(Broadcast(d, r))
    ensures forall s | s in d.sessions && d.sessions[s] !in d.dropped :: EndsFailed(Broadcast(d, r).logs[d.sessions[s]])
  {
    var e := Broadcast(d, r);
    forall i | 0 <= i < |e.logs| ensures FailsLast(e.logs[i]) {
      assert FailsLast(d.logs[i]);
      if LiveChannel(d, i) {
        var s :| s in d.sessions && d.sessions[s] == i;
        assert !EndsFailed(d.logs[i]);
      }
    }
    forall s | s in d.sessions && d.sessions[s] !in d.dropped ensures EndsFailed(e.logs[d.sessions[s]]) {
      assert LiveChannel(d, d.sessions[s]);
    }
  }

  lemma {:induction false} StopValid(d: Driver)
    requires Valid(d)
    ensures Valid(d.(running := false))
  {
  }

  /** Telling every reader of a failure keeps the invariant, whether or not the driver then stops. */
  lemma {:induction false} FailValid(d: Driver, r: Reason)
    requires Valid(d) && Active(d)
    ensures Valid(Broadcast(d, r).(failure := Some(r))) && Valid(Broadcast(d, r).(running := false))
  {
    BroadcastLogs(d, r);
  }

  lemma {:induction false} PushOk(s: u32, b: Pending, p: Packet)
    requires PendingOk(s, b) && p.Session() == s && !p.OpensSession()
    ensures Push(b, p).Some? ==> PendingOk(s, Push(b, p).value)
  {
    assert (b.packets + [p])[..|b.packets|] == b.packets;
  }

  lemma {:induction false} AnnounceValid(d: Driver, p: Packet)
    requires Valid(d)
    ensures Valid(Announce(d, p))
  {
  }

  lemma {:induction false} ForgetValid(d: Driver, s: u32)
    requires Valid(d)
    ensures Valid(Forget(d, s))
  {
  }

  lemma {:induction false} DeliverValid(d: Driver, s: u32, p: Packet)
    requires Valid(d) && Active(d) && s in d.sessions
    ensures var ch := d.sessions[s]; Valid(d.(logs := d.logs[ch := d.logs[ch] + [Data(p)]]))
  {
    assert FailsLast(d.logs[d.sessions[s]]) && !EndsFailed(d.logs[d.sessions[s]]);
    assert FailsLast(d.logs[d.sessions[s]] + [Data(p)]);
  }

  lemma {:induction false} BufferValid(d: Driver, s: u32, p: Packet)
    requires Valid(d) && s !in d.sessions && s in d.awaiting && p.Session() == s && !p.OpensSession()
    requires Push(Buffered(d, s), p).Some?
    ensures Valid(d.(pending := d.pending[s := Push(Buffered(d, s), p).value]))
  {
    PushOk(s, Buffered(d, s), p);
  }

  lemma {:induction false} IncomingValid(d: Driver, p: Packet)
    requires Valid(d) && Active(d)
    ensures Valid(StepIncoming(d, p))
  {
    var a, s := Announce(d, p), p.Session();
    AnnounceValid(d, p);
    if s != 0 && s in a.sessions {
      if a.sessions[s] in a.dropped { ForgetValid(a, s); } else { DeliverValid(a, s, p); }
    } else if s != 0 && !p.OpensSession() {
      if s !in a.awaiting {
        FailValid(a, NoSuchSession(s));
      } else if Push(Buffered(a, s), p).None? {
        FailValid(a, BufferLimit);
      } else {
        BufferValid(a, s, p);
      }
    }
  }

  lemma {:induction false} DeliveriesAreData(ps: seq<Packet>, rest: seq<Delivery>)
    requires |rest| <= 1
    ensures FailsLast(Deliveries(ps) + rest)
  {
  }

  lemma {:induction false} RegisterChannels(d: Driver, s: u32, readerAlive: bool)
    requires Channels(d)
    ensures Channels(StepRegister(d, s, readerAlive))
  {
    var rest := if d.failure.Some? then [Failed(d.failure.value)] else [];
    DeliveriesAreData(Buffered(d, s).packets, rest);
  }

  lemma {:induction false} RegisterValid(d: Driver, s: u32, readerAlive: bool)
    requires Valid(d)
    ensures Valid(StepRegister(d, s, readerAlive))
  {
    RegisterChannels(d, s, readerAlive);
  }

  lemma {:induction false} StepValid(d: Driver, e: Event)
    requires Valid(d)
    ensures Valid(Step(d, e))
  {
    match e {
      case Write(p, _) => if Active(d) { AnnounceValid(d, p); FailValid(Announce(d, p), TransportFailed); }
      case Incoming(p) => if Active(d) { IncomingValid(d, p); }
      case IncomingError => if Active(d) { FailValid(d, TransportFailed); }
      case Register(s, alive) => RegisterValid(d, s, alive);
      case Unregister(s) => ForgetValid(d, s);
      case CloseCommand => StopValid(d);
      case CommandsGone => StopValid(d);
      case _ =>
    }
  }

  lemma {:induction false} RunValid(es: seq<Event>)
    ensures Valid(Run(es))
  {
    if es != [] {
      RunValid(es[..|es| - 1]);
      StepValid(Run(es[..|es| - 1]), es[|es| - 1]);
    }
  }
}
