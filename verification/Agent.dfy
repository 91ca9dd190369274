/** The agent: one signed session at a time, commands running beside it, and an
event queue that outlives every connection.

The select loop, the spawned command tasks, the dispatcher's background tasks
and the network are a state machine over labelled steps; a label that is not
enabled changes nothing, so every sequence of labels is a run. Receiving from a
queue and finishing the send are separate steps, because other tasks go on in
between. So are cancelling and noticing it: the token stays cancelled until the
loop next waits. Fields marked as history are read by no step. */
module Agent {
  import opened Basics
  import opened Protocol
  import opened Signing
  import opened NonceCache

  /** Both clocks count nanoseconds. */
  const SECOND := 1_000_000_000

  const NONCE_CACHE_TTL := 120 * SECOND

  const MIN_BACKOFF := 1
  const MAX_BACKOFF := 30

  type WallClock = w: nat | w < CLOCK_LIMIT * SECOND

  /** The node's secret, the hash functions, and decoding of command payloads. */
  datatype Config = Config(crypto: Crypto, secret: Bytes, decode: Bytes -> Option<Command>)

  datatype Wire = Hello | Heartbeat | EventMsg(event: Event) | AckMsg(ack: Ack)

  /** What the socket yields; a text that is no envelope is `Text(None)`. */
  datatype Incoming = Closed | Broken | CloseFrame | OtherFrame | Text(envelope: Option<Envelope>)

  datatype Ending = Cancelled | PeerClosed | PeerBroken | Rejected | SendFailed(message: Wire)

  /** The clocks as read while an envelope was checked. */
  datatype Reading = Reading(wall: WallClock, mono: nat)

  datatype Acceptance = Acceptance(envelope: Envelope, reading: Reading)

  datatype Session = Session(
    seen: map<string, nat>,
    running: seq<Command>,
    acks: seq<Ack>,
    sending: Option<Wire>,
    // history
    accepted: seq<Acceptance>,
    dispatched: seq<Command>,
    completed: seq<Ack>,
    wire: seq<Wire>)

  /** An event taken off the queue, and whether its send went through. */
  datatype Handled = Handled(event: Event, delivered: bool)

  datatype State = State(
    session: Option<Session>,
    queue: seq<Event>,
    backoff: nat,
    sleeping: bool,
    cancelled: bool,
    stopped: bool,
    // history
    emitted: seq<Event>,
    sent: seq<Event>,
    handled: seq<Handled>,
    endings: seq<Ending>,
    before: seq<Acceptance>)

  datatype Label =
    | Dial(ok: bool)
    | Wake
    | Cancel
    | Notice
    | Emit(event: Event)
    | Finish(task: nat, outcome: Outcome)
    | Tick
    | TakeEvent
    | TakeAck
    | Sent(ok: bool)
    | Receive(message: Incoming, reading: Reading)

  /** The first dial is under way. */
  function Init(): State {
    State(None, [], MIN_BACKOFF, false, false, false, [], [], [], [], [])
  }

  /** A new session starts by sending its hello. */
  function NewSession(): Session {
    Session(map[], [], [], Some(Hello), [], [], [], [])
  }

  predicate Idle(a: State) {
    a.session.Some? && a.session.value.sending.None?
  }

  /** Everything accepted since the daemon started: what earlier sessions
      accepted, then what this one did. */
  function AcceptedEver(a: State): seq<Acceptance> {
    a.before + if a.session.Some? then a.session.value.accepted else []
  }

  function End(a: State, why: Ending): State {
    a.(session := None, sleeping := true, stopped := a.stopped || why.Cancelled?,
       endings := a.endings + [why], before := AcceptedEver(a))
  }

  /** The command an accepted envelope carries, if any. */
  function CommandOf(cfg: Config, e: Envelope): Option<Command> {
    if e.kind == "command" then cfg.decode(e.payload) else None
  }

  function Accept(cfg: Config, s: Session, e: Envelope, r: Reading): Session {
    var v := Check(s.seen, NONCE_CACHE_TTL, e.nonce, r.mono);
    var s' := s.(seen := v.seen, accepted := s.accepted + [Acceptance(e, r)]);
    match CommandOf(cfg, e)
    case None => s'
    case Some(cmd) => s'.(running := s.running + [cmd], dispatched := s.dispatched + [cmd])
  }

  predicate Passes(cfg: Config, s: Session, e: Envelope, r: Reading) {
    && Verify(cfg.crypto, cfg.secret, e, r.wall / SECOND)
    && Check(s.seen, NONCE_CACHE_TTL, e.nonce, r.mono).accepted
  }

  function Handle(cfg: Config, a: State, m: Incoming, r: Reading): State
    requires Idle(a)
  {
    var s := a.session.value;
    match m
    case Closed => End(a, PeerClosed)
    case CloseFrame => End(a, PeerClosed)
    case Broken => End(a, PeerBroken)
    case OtherFrame => a
    case Text(None) => a
    case Text(Some(e)) => if Passes(cfg, s, e, r) then a.(session := Some(Accept(cfg, s, e, r))) else End(a, Rejected)
  }

  /** A send that finished, or failed and took the session with it. */
  function FinishSend(a: State, ok: bool): State
    requires a.session.Some? && a.session.value.sending.Some?
  {
    var s, w := a.session.value, a.session.value.sending.value;
    var a' := if w.EventMsg? then a.(handled := a.handled + [Handled(w.event, ok)]) else a;
    if !ok then End(a', SendFailed(w))
    else
      var a'' := a'.(session := Some(s.(sending := None, wire := s.wire + [w])));
      if w.EventMsg? then a''.(sent := a.sent + [w.event]) else a''
  }

  function FinishTask(s: Session, i: nat, outcome: Outcome): Session
    requires i < |s.running|
  {
    var ack := AckFor(s.running[i], outcome);
    s.(running := s.running[..i] + s.running[i + 1..], acks := s.acks + [ack], completed := s.completed + [ack])
  }

  function Min(a: nat, b: nat): nat {
    if a < b then a else b
  }

  function Step(cfg: Config, a: State, l: Label): State {
    match l
    case Dial(ok) =>
      if a.session.Some? || a.sleeping || a.stopped then a
      else if ok then a.(session := Some(NewSession()), backoff := MIN_BACKOFF)
      else a.(sleeping := true)
    case Wake =>
      if a.session.Some? || !a.sleeping || a.stopped then a
      else if a.cancelled then a.(stopped := true)
      else a.(sleeping := false, backoff := Min(2 * a.backoff, MAX_BACKOFF))
    case Cancel => a.(cancelled := true)
    case Notice =>
      if a.cancelled && Idle(a) then End(a, Cancelled)
      else if a.cancelled && a.session.None? && a.sleeping then a.(stopped := true)
      else a
    case Emit(event) => a.(queue := a.queue + [event], emitted := a.emitted + [event])
    case Finish(task, outcome) =>
      if a.session.Some? && task < |a.session.value.running| then
        a.(session := Some(FinishTask(a.session.value, task, outcome)))
      else a
    case Tick =>
      if Idle(a) then a.(session := Some(a.session.value.(sending := Some(Heartbeat)))) else a
    case TakeEvent =>
      if Idle(a) && a.queue != [] then
        a.(session := Some(a.session.value.(sending := Some(EventMsg(a.queue[0])))), queue := a.queue[1..])
      else a
    case TakeAck =>
      if Idle(a) && a.session.value.acks != [] then
        var s := a.session.value;
        a.(session := Some(s.(sending := Some(AckMsg(s.acks[0])), acks := s.acks[1..])))
      else a
    case Sent(ok) =>
      if a.session.Some? && a.session.value.sending.Some? then FinishSend(a, ok) else a
    case Receive(message, reading) =>
      if Idle(a) then Handle(cfg, a, message, reading) else a
  }

  function Run(cfg: Config, labels: seq<Label>): State {
    if labels == [] then Init() else Step(cfg, Run(cfg, labels[..|labels| - 1]), labels[|labels| - 1])
  }

  // ---- What the steps do, written out ----

  /** The checks of an envelope: its signature and time by the wall clock in
      seconds, its nonce by the monotonic clock against 120 seconds. */
  predicate Admits(cfg: Config, s: Session, e: Envelope, r: Reading) {
    && Verify(cfg.crypto, cfg.secret, e, r.wall / 1_000_000_000)
    && Check(s.seen, 120_000_000_000, e.nonce, r.mono).accepted
  }

  /** The session that took an envelope in: it is noted, and exactly if it is of
      kind "command" and its payload decodes, that command is running. */
  ghost predicate TookIn(cfg: Config, s: Session, e: Envelope, r: Reading, t: Session) {
    && t.seen == Check(s.seen, 120_000_000_000, e.nonce, r.mono).seen
    && t.accepted == s.accepted + [Acceptance(e, r)]
    && (t.acks, t.sending, t.completed, t.wire) == (s.acks, s.sending, s.completed, s.wire)
    && (if e.kind == "command" && cfg.decode(e.payload).Some? then
          var cmd := cfg.decode(e.payload).value;
          t.running == s.running + [cmd] && t.dispatched == s.dispatched + [cmd]
        else t.running == s.running && t.dispatched == s.dispatched)
  }

  ghost predicate EndedBy(a: State, why: Ending, a': State) {
    && a'.session.None? && a'.endings == a.endings + [why] && a'.sleeping
    && a'.stopped == (a.stopped || why.Cancelled?)
    && (a'.queue, a'.emitted, a'.sent, a'.handled) == (a.queue, a.emitted, a.sent, a.handled)
  }

  /** What becomes of a message on an idle session: the end of the stream and a
      close frame end it, and so does an envelope that fails a check; what is no
      envelope is dropped; anything else is taken in. */
  lemma ReceivedExactly(cfg: Config, a: State, m: Incoming, r: Reading)
    requires Idle(a)
    ensures var a', s := Step(cfg, a, Receive(m, r)), a.session.value;
            match m
            case Closed => EndedBy(a, PeerClosed, a')
            case CloseFrame => EndedBy(a, PeerClosed, a')
            case Broken => EndedBy(a, PeerBroken, a')
            case OtherFrame => a' == a
            case Text(None) => a' == a
            case Text(Some(e)) =>
              if Admits(cfg, s, e, r) then
                a'.session.Some? && a' == a.(session := a'.session) && TookIn(cfg, s, e, r, a'.session.value)
              else EndedBy(a, Rejected, a')
  {
    hide Verify, Check;
  }

  /** A task that finishes is acknowledged under its command's id with its own
      outcome, behind the acks already waiting. */
  lemma FinishedExactly(cfg: Config, a: State, task: nat, outcome: Outcome)
    requires a.session.Some? && task < |a.session.value.running|
    ensures var a', s := Step(cfg, a, Finish(task, outcome)), a.session.value;
            && a'.session.Some? && a' == a.(session := a'.session)
            && var t := a'.session.value;
               var ack := Ack(s.running[task].commandId, outcome.Done?,
                              if outcome.Failed? then Some(outcome.error) else None,
                              if outcome.Done? then outcome.result else None);
               && t.acks == s.acks + [ack] && t.completed == s.completed + [ack]
               && t.running == s.running[..task] + s.running[task + 1..]
               && (t.seen, t.sending, t.accepted, t.dispatched, t.wire) ==
                    (s.seen, s.sending, s.accepted, s.dispatched, s.wire)
  {
  }

  /** A tick of the timer puts a heartbeat on the wire. */
  lemma TickSendsHeartbeat(cfg: Config, a: State)
    requires Idle(a)
    ensures var a' := Step(cfg, Step(cfg, a, Tick), Sent(true));
            Idle(a') && a'.session.value.wire == a.session.value.wire + [Heartbeat]
  {
  }

  /** Cancelling ends an idle session or the wait between two, and then nothing
      is dialled any more. */
  lemma CancelIsNoticed(cfg: Config, a: State, ok: bool)
    requires Idle(a) || (a.session.None? && a.sleeping)
    ensures var a' := Step(cfg, Step(cfg, a, Cancel), Notice);
            && a'.session.None? && a'.stopped && Step(cfg, a', Dial(ok)) == a' && Step(cfg, a', Wake) == a'
            && (Idle(a) ==> a'.endings == a.endings + [Cancelled])
    ensures a.session.None? && !a.stopped ==> Step(cfg, Step(cfg, a, Cancel), Wake).stopped
  {
  }

  // ---- Commands and acks are conserved ----

  function Ids(cmds: seq<Command>): seq<string> {
    seq(|cmds|, i requires 0 <= i < |cmds| => cmds[i].commandId)
  }

  function AckIds(acks: seq<Ack>): seq<string> {
    seq(|acks|, i requires 0 <= i < |acks| => acks[i].commandId)
  }

  function AcksOf(wire: seq<Wire>): seq<Ack> {
    if wire == [] then []
    else if wire[|wire| - 1].AckMsg? then AcksOf(wire[..|wire| - 1]) + [wire[|wire| - 1].ack]
    else AcksOf(wire[..|wire| - 1])
  }

  function AckInFlight(s: Session): seq<Ack> {
    if s.sending.Some? && s.sending.value.AckMsg? then [s.sending.value.ack] else []
  }

  /** Acks leave in the order the commands completed, none twice and none lost
      while the session lives. */
  ghost predicate AcksInOrder(s: Session) {
    s.completed == AcksOf(s.wire) + AckInFlight(s) + s.acks
  }

  /** Every dispatched command is running or completed, exactly once. */
  ghost predicate CommandsConserved(s: Session) {
    multiset(Ids(s.dispatched)) == multiset(Ids(s.running)) + multiset(AckIds(s.completed))
  }

  lemma AcksOfSnoc(wire: seq<Wire>, w: Wire)
    ensures AcksOf(wire + [w]) == if w.AckMsg? then AcksOf(wire) + [w.ack] else AcksOf(wire)
  {
    assert (wire + [w])[..|wire + [w]| - 1] == wire;
  }

  lemma IdsSnoc(cmds: seq<Command>, cmd: Command)
    ensures multiset(Ids(cmds + [cmd])) == multiset(Ids(cmds)) + multiset{cmd.commandId}
  {
    assert Ids(cmds + [cmd]) == Ids(cmds) + [cmd.commandId];
  }

  lemma AckIdsSnoc(acks: seq<Ack>, ack: Ack)
    ensures multiset(AckIds(acks + [ack])) == multiset(AckIds(acks)) + multiset{ack.commandId}
  {
    assert AckIds(acks + [ack]) == AckIds(acks) + [ack.commandId];
  }

  lemma IdsRemove(cmds: seq<Command>, i: nat)
    requires i < |cmds|
    ensures multiset(Ids(cmds)) == multiset(Ids(cmds[..i] + cmds[i + 1..])) + multiset{cmds[i].commandId}
  {
    var ids := Ids(cmds);
    assert Ids(cmds[..i] + cmds[i + 1..]) == ids[..i] + ids[i + 1..];
    assert ids == ids[..i] + [ids[i]] + ids[i + 1..];
  }

  ghost predicate Conserved(s: Session) {
    CommandsConserved(s) && AcksInOrder(s)
  }

  lemma NewSessionConserves()
    ensures Conserved(NewSession())
  {
  }

  lemma FinishTaskConserves(s: Session, i: nat, outcome: Outcome)
    requires i < |s.running| && Conserved(s)
    ensures Conserved(FinishTask(s, i, outcome))
  {
    hide Ids, AckIds, AcksOf;
    var ack := AckFor(s.running[i], outcome);
    IdsRemove(s.running, i);
    AckIdsSnoc(s.completed, ack);
    Concat3(AcksOf(s.wire) + AckInFlight(s), s.acks, [ack]);
  }

  lemma AcceptConserves(cfg: Config, s: Session, e: Envelope, r: Reading)
    requires Conserved(s)
    ensures Conserved(Accept(cfg, s, e, r))
  {
    hide Ids, AckIds, AcksOf, Check;
    var cmd := CommandOf(cfg, e);
    if cmd.Some? {
      IdsSnoc(s.dispatched, cmd.value);
      IdsSnoc(s.running, cmd.value);
    }
  }

  lemma TakeAckConserves(s: Session)
    requires Conserved(s) && s.sending.None? && s.acks != []
    ensures Conserved(s.(sending := Some(AckMsg(s.acks[0])), acks := s.acks[1..]))
  {
    hide Ids, AckIds, AcksOf;
    assert s.acks == [s.acks[0]] + s.acks[1..];
    Concat3(AcksOf(s.wire), [s.acks[0]], s.acks[1..]);
    assert AcksOf(s.wire) + [] + s.acks == AcksOf(s.wire) + s.acks;
  }

  lemma OtherSendConserves(s: Session, w: Wire)
    requires Conserved(s) && s.sending.None? && !w.AckMsg?
    ensures Conserved(s.(sending := Some(w)))
  {
  }

  lemma SentConserves(s: Session)
    requires Conserved(s) && s.sending.Some?
    ensures Conserved(s.(sending := None, wire := s.wire + [s.sending.value]))
  {
    hide Ids, AckIds, AcksOf;
    AcksOfSnoc(s.wire, s.sending.value);
    assert AcksOf(s.wire) + AckInFlight(s) + [] == AcksOf(s.wire + [s.sending.value]);
  }

  lemma StepConserves(cfg: Config, a: State, l: Label)
    requires a.session.Some? ==> Conserved(a.session.value)
    ensures var a' := Step(cfg, a, l); a'.session.Some? ==> Conserved(a'.session.value)
  {
    hide Conserved, Accept, Passes, FinishTask;
    NewSessionConserves();
    if a.session.Some? {
      var s := a.session.value;
      match l
      case Finish(task, outcome) =>
        if task < |s.running| {
          FinishTaskConserves(s, task, outcome);
        }
      case Receive(Text(Some(e)), reading) =>
        AcceptConserves(cfg, s, e, reading);
      case TakeAck =>
        if Idle(a) && s.acks != [] {
          TakeAckConserves(s);
        }
      case Tick =>
        if Idle(a) {
          OtherSendConserves(s, Heartbeat);
        }
      case TakeEvent =>
        if Idle(a) && a.queue != [] {
          OtherSendConserves(s, EventMsg(a.queue[0]));
        }
      case Sent(ok) =>
        if s.sending.Some? {
          SentConserves(s);
        }
      case _ =>
    }
  }

  /** At every point of every run: dispatched is running plus completed, and
      completed is sent, then in flight, then queued. */
  lemma {:induction false} RunConserves(cfg: Config, labels: seq<Label>)
    ensures var a := Run(cfg, labels);
            a.session.Some? ==> CommandsConserved(a.session.value) && AcksInOrder(a.session.value)
  {
    if labels != [] {
      RunConserves(cfg, labels[..|labels| - 1]);
      hide Step, CommandsConserved, AcksInOrder;
      StepConserves(cfg, Run(cfg, labels[..|labels| - 1]), labels[|labels| - 1]);
    }
  }

  /** A session's hello goes out before anything else, once. */
  ghost predicate HelloFirst(s: Session) {
    if s.wire == [] then s.sending == Some(Hello)
    else s.wire[0] == Hello && Hello !in s.wire[1..] && s.sending != Some(Hello)
  }

  lemma SentKeepsHello(s: Session)
    requires HelloFirst(s) && s.sending.Some?
    ensures HelloFirst(s.(sending := None, wire := s.wire + [s.sending.value]))
  {
    var wire := s.wire + [s.sending.value];
    if s.wire != [] {
      assert wire[1..] == s.wire[1..] + [s.sending.value];
    }
  }

  lemma OtherStepKeepsHello(s: Session, s': Session)
    requires HelloFirst(s) && s'.wire == s.wire
    requires s'.sending == s.sending || (s.sending.None? && s'.sending != Some(Hello))
    ensures HelloFirst(s')
  {
  }

  lemma StepKeepsHello(cfg: Config, a: State, l: Label)
    requires a.session.Some? ==> HelloFirst(a.session.value)
    ensures var a' := Step(cfg, a, l); a'.session.Some? ==> HelloFirst(a'.session.value)
  {
    assert HelloFirst(NewSession());
    hide HelloFirst, Passes, Check;
    var a' := Step(cfg, a, l);
    if a.session.Some? && a'.session.Some? {
      var s := a.session.value;
      if l.Sent? && s.sending.Some? {
        SentKeepsHello(s);
      } else {
        OtherStepKeepsHello(s, a'.session.value);
      }
    }
  }

  lemma {:induction false} HelloComesFirst(cfg: Config, labels: seq<Label>)
    ensures var a := Run(cfg, labels); a.session.Some? ==> HelloFirst(a.session.value)
  {
    if labels != [] {
      HelloComesFirst(cfg, labels[..|labels| - 1]);
      hide Step, HelloFirst;
      StepKeepsHello(cfg, Run(cfg, labels[..|labels| - 1]), labels[|labels| - 1]);
    }
  }

  // ---- Events keep their order across reconnects ----

  function EmittedBy(labels: seq<Label>): seq<Event> {
    if labels == [] then []
    else if labels[|labels| - 1].Emit? then EmittedBy(labels[..|labels| - 1]) + [labels[|labels| - 1].event]
    else EmittedBy(labels[..|labels| - 1])
  }

  function EventInFlight(a: State): seq<Event> {
    if a.session.Some? && a.session.value.sending.Some? && a.session.value.sending.value.EventMsg? then
      [a.session.value.sending.value.event]
    else []
  }

  function Events(handled: seq<Handled>): seq<Event> {
    seq(|handled|, i requires 0 <= i < |handled| => handled[i].event)
  }

  function Delivered(handled: seq<Handled>): seq<Event> {
    if handled == [] then []
    else if handled[|handled| - 1].delivered then Delivered(handled[..|handled| - 1]) + [handled[|handled| - 1].event]
    else Delivered(handled[..|handled| - 1])
  }

  function LostCount(handled: seq<Handled>): nat {
    if handled == [] then 0
    else LostCount(handled[..|handled| - 1]) + if handled[|handled| - 1].delivered then 0 else 1
  }

  /** How many sessions ended on the failed send of an event. */
  function FailedEventSends(endings: seq<Ending>): nat {
    if endings == [] then 0
    else
      var e := endings[|endings| - 1];
      FailedEventSends(endings[..|endings| - 1]) + if e.SendFailed? && e.message.EventMsg? then 1 else 0
  }

  ghost predicate EventsConserved(a: State) {
    && a.emitted == Events(a.handled) + EventInFlight(a) + a.queue
    && a.sent == Delivered(a.handled)
    && LostCount(a.handled) == FailedEventSends(a.endings)
  }

  lemma HandledSnoc(handled: seq<Handled>, h: Handled)
    ensures Events(handled + [h]) == Events(handled) + [h.event]
    ensures Delivered(handled + [h]) == if h.delivered then Delivered(handled) + [h.event] else Delivered(handled)
    ensures LostCount(handled + [h]) == LostCount(handled) + if h.delivered then 0 else 1
  {
    assert (handled + [h])[..|handled + [h]| - 1] == handled;
  }

  lemma EndingsSnoc(endings: seq<Ending>, e: Ending)
    ensures FailedEventSends(endings + [e]) ==
            FailedEventSends(endings) + if e.SendFailed? && e.message.EventMsg? then 1 else 0
  {
    assert (endings + [e])[..|endings + [e]| - 1] == endings;
  }

  lemma FinishSendConservesEvents(a: State, ok: bool)
    requires EventsConserved(a) && a.session.Some? && a.session.value.sending.Some?
    ensures EventsConserved(FinishSend(a, ok))
  {
    hide Events, Delivered, LostCount, FailedEventSends;
    var w := a.session.value.sending.value;
    EndingsSnoc(a.endings, SendFailed(w));
    if w.EventMsg? {
      HandledSnoc(a.handled, Handled(w.event, ok));
      assert Events(a.handled) + [w.event] + [] == Events(a.handled) + [w.event];
    }
  }

  lemma EndConservesEvents(a: State, why: Ending)
    requires EventsConserved(a) && Idle(a) && !why.SendFailed?
    ensures EventsConserved(End(a, why))
  {
    hide Events, Delivered, LostCount, FailedEventSends;
    EndingsSnoc(a.endings, why);
  }

  lemma TakeEventConservesEvents(a: State)
    requires EventsConserved(a) && Idle(a) && a.queue != []
    ensures EventsConserved(
              a.(session := Some(a.session.value.(sending := Some(EventMsg(a.queue[0])))), queue := a.queue[1..]))
  {
    hide Events, Delivered, LostCount, FailedEventSends;
    assert a.queue == [a.queue[0]] + a.queue[1..];
    Concat3(Events(a.handled), [a.queue[0]], a.queue[1..]);
    assert Events(a.handled) + [] + a.queue == Events(a.handled) + a.queue;
  }

  lemma EmitConservesEvents(a: State, event: Event)
    requires EventsConserved(a)
    ensures EventsConserved(a.(queue := a.queue + [event], emitted := a.emitted + [event]))
  {
    hide Events, Delivered, LostCount, FailedEventSends;
    Concat3(Events(a.handled) + EventInFlight(a), a.queue, [event]);
  }

  /** The steps that leave events alone. */
  lemma SameEventsConserves(a: State, a': State)
    requires EventsConserved(a) && EventInFlight(a) == EventInFlight(a')
    requires a.queue == a'.queue && a.emitted == a'.emitted && a.sent == a'.sent
    requires a.handled == a'.handled && a.endings == a'.endings
    ensures EventsConserved(a')
  {
  }

  lemma HandleConservesEvents(cfg: Config, a: State, m: Incoming, r: Reading)
    requires EventsConserved(a) && Idle(a)
    ensures EventsConserved(Handle(cfg, a, m, r)) && Handle(cfg, a, m, r).emitted == a.emitted
  {
    hide EventsConserved, Passes, Check;
    var a' := Handle(cfg, a, m, r);
    if a'.session.None? {
      EndConservesEvents(a, a'.endings[|a.endings|]);
    } else {
      SameEventsConserves(a, a');
    }
  }

  lemma StepConservesEvents(cfg: Config, a: State, l: Label)
    requires EventsConserved(a)
    ensures EventsConserved(Step(cfg, a, l))
    ensures Step(cfg, a, l).emitted == if l.Emit? then a.emitted + [l.event] else a.emitted
  {
    hide EventsConserved, Handle;
    var a' := Step(cfg, a, l);
    if l.Sent? && a.session.Some? && a.session.value.sending.Some? {
      FinishSendConservesEvents(a, l.ok);
    } else if l.Emit? {
      EmitConservesEvents(a, l.event);
    } else if l.TakeEvent? && Idle(a) && a.queue != [] {
      TakeEventConservesEvents(a);
    } else if l.Receive? && Idle(a) {
      HandleConservesEvents(cfg, a, l.message, l.reading);
    } else if l.Notice? && a.cancelled && Idle(a) {
      EndConservesEvents(a, Cancelled);
    } else {
      SameEventsConserves(a, a');
    }
  }

  /** Over any sequence of connects, failures and reconnects: what was emitted
      is what was handled, then what is in flight, then what is queued, in the
      order of emission; of the handled events all were sent, once each, but for
      one for each session that ended on the failed send of an event. */
  lemma {:induction false} RunConservesEvents(cfg: Config, labels: seq<Label>)
    ensures EventsConserved(Run(cfg, labels))
    ensures Run(cfg, labels).emitted == EmittedBy(labels)
  {
    if labels != [] {
      RunConservesEvents(cfg, labels[..|labels| - 1]);
      hide Step, EventsConserved;
      StepConservesEvents(cfg, Run(cfg, labels[..|labels| - 1]), labels[|labels| - 1]);
    } else {
      assert EmittedBy(labels) == [];
    }
  }

  /** Taking and sending `k` events, and `k` acks. */
  function SendEvents(k: nat): seq<Label> {
    if k == 0 then [] else SendEvents(k - 1) + [TakeEvent] + [Sent(true)]
  }

  function SendAcks(k: nat): seq<Label> {
    if k == 0 then [] else SendAcks(k - 1) + [TakeAck] + [Sent(true)]
  }

  lemma SendsEvent(cfg: Config, a: State)
    requires Idle(a) && a.queue != []
    ensures var a' := Step(cfg, Step(cfg, a, TakeEvent), Sent(true));
            && Idle(a') && a'.queue == a.queue[1..] && a'.sent == a.sent + [a.queue[0]]
            && a'.session.value.wire == a.session.value.wire + [EventMsg(a.queue[0])]
  {
  }

  lemma SendsAck(cfg: Config, a: State)
    requires Idle(a) && a.session.value.acks != []
    ensures var a', s := Step(cfg, Step(cfg, a, TakeAck), Sent(true)), a.session.value;
            Idle(a') && a'.session.value.acks == s.acks[1..] && a'.session.value.wire == s.wire + [AckMsg(s.acks[0])]
  {
  }

  /** The queue is emptied: on an idle session, taking and sending `k` events
      delivers the first `k` queued. */
  lemma {:induction false} EventsAreSent(cfg: Config, labels: seq<Label>, k: nat)
    requires Idle(Run(cfg, labels)) && k <= |Run(cfg, labels).queue|
    ensures var a, a' := Run(cfg, labels), Run(cfg, labels + SendEvents(k));
            Idle(a') && a'.queue == a.queue[k..] && a'.sent == a.sent + a.queue[..k]
  {
    hide Run, Step;
    var a := Run(cfg, labels);
    if k == 0 {
      assert labels + SendEvents(k) == labels;
    } else {
      EventsAreSent(cfg, labels, k - 1);
      var front := labels + SendEvents(k - 1);
      RunSnoc(cfg, front, TakeEvent);
      RunSnoc(cfg, front + [TakeEvent], Sent(true));
      assert labels + SendEvents(k) == front + [TakeEvent] + [Sent(true)];
      SendsEvent(cfg, Run(cfg, front));
      assert a.queue[..k] == a.queue[..k - 1] + [a.queue[k - 1]];
    }
  }

  /** So are the acks of the session, in order. */
  lemma {:induction false} AcksAreSent(cfg: Config, labels: seq<Label>, k: nat)
    requires Idle(Run(cfg, labels)) && k <= |Run(cfg, labels).session.value.acks|
    ensures var a, a' := Run(cfg, labels), Run(cfg, labels + SendAcks(k));
            && Idle(a') && a'.session.value.acks == a.session.value.acks[k..]
            && AcksOf(a'.session.value.wire) == AcksOf(a.session.value.wire) + a.session.value.acks[..k]
  {
    hide Run, Step, AcksOf;
    var s := Run(cfg, labels).session.value;
    if k == 0 {
      assert labels + SendAcks(k) == labels;
    } else {
      AcksAreSent(cfg, labels, k - 1);
      var front := labels + SendAcks(k - 1);
      RunSnoc(cfg, front, TakeAck);
      RunSnoc(cfg, front + [TakeAck], Sent(true));
      assert labels + SendAcks(k) == front + [TakeAck] + [Sent(true)];
      SendsAck(cfg, Run(cfg, front));
      AcksOfSnoc(Run(cfg, front).session.value.wire, AckMsg(s.acks[k - 1]));
      assert s.acks[..k] == s.acks[..k - 1] + [s.acks[k - 1]];
    }
  }

  // ---- Reconnecting ----

  function Pow2(k: nat): nat {
    if k == 0 then 1 else 2 * Pow2(k - 1)
  }

  /** Dialling in vain `k` times, waiting after each. */
  function FailedDials(k: nat): seq<Label> {
    if k == 0 then [] else FailedDials(k - 1) + [Dial(false)] + [Wake]
  }

  lemma RunSnoc(cfg: Config, labels: seq<Label>, l: Label)
    ensures Run(cfg, labels + [l]) == Step(cfg, Run(cfg, labels), l)
  {
    assert (labels + [l])[..|labels + [l]| - 1] == labels;
  }

  lemma EmptyRun(cfg: Config)
    ensures Run(cfg, []) == Init()
  {
  }

  /** The delay doubles with every failure up to 30 seconds, and a connection
      that succeeds sets it back. */
  lemma {:induction false} BackoffDoubles(cfg: Config, k: nat)
    ensures Run(cfg, FailedDials(k)) == Init().(backoff := if Pow2(k) < 30 then Pow2(k) else 30)
    ensures Run(cfg, FailedDials(k) + [Dial(true)]).backoff == 1
  {
    hide Run, Handle, FinishSend, FinishTask;
    RunSnoc(cfg, FailedDials(k), Dial(true));
    if k == 0 {
      EmptyRun(cfg);
    } else {
      BackoffDoubles(cfg, k - 1);
      RunSnoc(cfg, FailedDials(k - 1), Dial(false));
      RunSnoc(cfg, FailedDials(k - 1) + [Dial(false)], Wake);
    }
  }

  /** Between a session's end and the next dial, and only there, the client waits;
      while connected the delay is back at one second; and it stops only if
      cancelled. */
  ghost predicate Steady(a: State) {
    && (a.session.Some? ==> a.backoff == 1 && !a.sleeping && !a.stopped)
    && (a.stopped ==> a.cancelled && a.sleeping)
    && 1 <= a.backoff <= 30
  }

  lemma StepIsSteady(cfg: Config, a: State, l: Label)
    requires Steady(a)
    ensures Steady(Step(cfg, a, l)) && (Step(cfg, a, l).cancelled <==> a.cancelled || l.Cancel?)
  {
    hide Passes, Accept, FinishTask;
  }

  /** In every run, and without a cancellation it never stops. */
  lemma {:induction false} RunIsSteady(cfg: Config, labels: seq<Label>)
    ensures Steady(Run(cfg, labels)) && (Run(cfg, labels).cancelled <==> Cancel in labels)
    ensures Run(cfg, labels).stopped ==> Cancel in labels
  {
    if labels != [] {
      var front, l := labels[..|labels| - 1], labels[|labels| - 1];
      assert labels == front + [l];
      RunIsSteady(cfg, front);
      hide Step;
      StepIsSteady(cfg, Run(cfg, front), l);
    }
  }

  /** A dial under way is ended by its own outcome and by nothing else. */
  lemma DialIsUndisturbed(cfg: Config, a: State, l: Label)
    requires a.session.None? && !a.sleeping && !a.stopped && !l.Dial?
    ensures var a' := Step(cfg, a, l);
            a'.session.None? && !a'.sleeping && !a'.stopped && a'.backoff == a.backoff
  {
  }

  /** Cancelled with no dial under way. */
  predicate WindingDown(a: State) {
    a.cancelled && (a.session.Some? || a.sleeping || a.stopped)
  }

  lemma StepWindsDown(cfg: Config, a: State, l: Label)
    requires WindingDown(a)
    ensures WindingDown(Step(cfg, a, l)) && (a.session.None? ==> Step(cfg, a, l).session.None?)
  {
    hide Passes, Accept, FinishTask;
  }

  /** Once cancelled, the daemon opens no further session, whatever happens, but
      for a dial that was under way. */
  lemma {:induction false} CancelledOpensNoSession(cfg: Config, labels: seq<Label>, more: seq<Label>)
    requires WindingDown(Run(cfg, labels))
    ensures WindingDown(Run(cfg, labels + more))
    ensures Run(cfg, labels).session.None? ==> Run(cfg, labels + more).session.None?
    decreases |more|
  {
    if more == [] {
      assert labels + more == labels;
    } else {
      var front, l := more[..|more| - 1], more[|more| - 1];
      CancelledOpensNoSession(cfg, labels, front);
      assert labels + more == labels + front + [l];
      hide Run, Step;
      RunSnoc(cfg, labels + front, l);
      StepWindsDown(cfg, Run(cfg, labels + front), l);
    }
  }
}
