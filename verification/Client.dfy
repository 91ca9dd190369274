/** The reconnecting client and its select loop, as the object the daemon runs.
Every arm takes the step of the agent's state machine, and what is proved of all
runs of the machine is what `Drive` promises of the object. */
module Client {
  import opened Basics
  import opened Protocol
  import opened Signing
  import opened NonceCache
  import opened Agent
  import opened Replay

  /** History of the session and of the client. */
  datatype Log = Log(accepted: seq<Acceptance>, dispatched: seq<Command>, completed: seq<Ack>, wire: seq<Wire>)
  datatype Trail = Trail(
    emitted: seq<Event>,
    sent: seq<Event>,
    handled: seq<Handled>,
    endings: seq<Ending>,
    before: seq<Acceptance>)

  class Client {
    const cfg: Config
    var connected: bool
    var incomingNonces: Cache
    var running: seq<Command>
    var acks: seq<Ack>
    var sending: Option<Wire>
    var queue: seq<Event>
    var backoff: nat
    var sleeping: bool
    var cancelled: bool
    var stopped: bool

    ghost var log: Log
    ghost var trail: Trail

    ghost predicate Valid()
      reads this
    {
      incomingNonces.ttl == NONCE_CACHE_TTL
    }

    ghost function View(): State
      reads this, incomingNonces
    {
      State(
        if connected then
          Some(Session(incomingNonces.seen, running, acks, sending,
                       log.accepted, log.dispatched, log.completed, log.wire))
        else None,
        queue, backoff, sleeping, cancelled, stopped,
        trail.emitted, trail.sent, trail.handled, trail.endings, trail.before)
    }

    constructor (cfg: Config)
      ensures Valid() && fresh(incomingNonces)
      ensures this.cfg == cfg && View() == Init()
    {
      this.cfg := cfg;
      connected, sleeping, cancelled, stopped := false, false, false, false;
      incomingNonces := new Cache(NONCE_CACHE_TTL);
      running, acks, sending, queue := [], [], None, [];
      backoff := MIN_BACKOFF;
      trail := Trail([], [], [], [], []);
    }

    /** Drops the connection. The ack queue goes with it, the event queue stays. */
    method Disconnect(why: Ending)
      requires Valid() && connected
      modifies this
      ensures Valid() && incomingNonces == old(incomingNonces)
      ensures View() == End(old(View()), why)
    {
      connected := false;
      sleeping := true;
      stopped := stopped || why.Cancelled?;
      trail := trail.(endings := trail.endings + [why], before := trail.before + log.accepted);
    }

    /** Opens a session with an empty replay cache and its hello to send. */
    method Connect()
      requires Valid()
      modifies this
      ensures Valid() && fresh(incomingNonces)
      ensures View() == old(View()).(session := Some(NewSession()), backoff := MIN_BACKOFF)
    {
      incomingNonces := new Cache(NONCE_CACHE_TTL);
      connected, running, acks, sending := true, [], [], Some(Hello);
      backoff := MIN_BACKOFF;
      log := Log([], [], [], []);
    }

    /** What becomes of one message: dropped, taken in, or the end of the session. */
    method HandleIncoming(message: Incoming, reading: Reading)
      requires Valid() && connected && sending.None?
      modifies this, incomingNonces
      ensures Valid() && incomingNonces == old(incomingNonces)
      ensures View() == Handle(cfg, old(View()), message, reading)
    {
      hide Check, Verify;
      match message
      case Closed =>
        Disconnect(PeerClosed);
      case CloseFrame =>
        Disconnect(PeerClosed);
      case Broken =>
        Disconnect(PeerBroken);
      case OtherFrame =>
      case Text(None) =>
      case Text(Some(e)) =>
        if !Verify(cfg.crypto, cfg.secret, e, reading.wall / SECOND) {
          Disconnect(Rejected);
          return;
        }
        var first := incomingNonces.CheckAndRecord(e.nonce, reading.mono);
        if !first {
          Disconnect(Rejected);
          return;
        }
        log := log.(accepted := log.accepted + [Acceptance(e, reading)]);
        if e.kind != "command" {
          return;
        }
        match cfg.decode(e.payload)
        case None =>
        case Some(cmd) =>
          running := running + [cmd];
          log := log.(dispatched := log.dispatched + [cmd]);
    }

    method CompleteSend(ok: bool)
      requires Valid() && connected && sending.Some?
      modifies this
      ensures Valid() && incomingNonces == old(incomingNonces)
      ensures View() == FinishSend(old(View()), ok)
    {
      var w := sending.value;
      if w.EventMsg? {
        trail := trail.(handled := trail.handled + [Handled(w.event, ok)]);
      }
      if !ok {
        Disconnect(SendFailed(w));
        return;
      }
      sending := None;
      log := log.(wire := log.wire + [w]);
      if w.EventMsg? {
        trail := trail.(sent := trail.sent + [w.event]);
      }
    }

    /** A spawned command finishes and funnels its ack back. */
    method CompleteTask(i: nat, outcome: Outcome)
      requires Valid() && connected && i < |running|
      modifies this
      ensures Valid() && incomingNonces == old(incomingNonces)
      ensures View() == old(View()).(session := Some(FinishTask(old(View()).session.value, i, outcome)))
    {
      var ack := AckFor(running[i], outcome);
      running := running[..i] + running[i + 1..];
      acks := acks + [ack];
      log := log.(completed := log.completed + [ack]);
    }

    /** Dialling, waiting out the backoff, and being cancelled. */
    method Reconnect(l: Label)
      requires Valid() && (l.Dial? || l.Wake? || l.Cancel? || l.Notice?)
      modifies this
      ensures Valid() && (incomingNonces == old(incomingNonces) || fresh(incomingNonces))
      ensures View() == Step(cfg, old(View()), l)
    {
      match l
      case Dial(ok) =>
        if !connected && !sleeping && !stopped {
          if ok {
            Connect();
          } else {
            sleeping := true;
          }
        }
      case Wake =>
        if !connected && sleeping && !stopped {
          if cancelled {
            stopped := true;
            return;
          }
          sleeping := false;
          backoff := Min(2 * backoff, MAX_BACKOFF);
        }
      case Cancel =>
        cancelled := true;
      case Notice =>
        if cancelled && connected && sending.None? {
          Disconnect(Cancelled);
        } else if cancelled && !connected && sleeping {
          stopped := true;
        }
    }

    /** One turn of the loop. */
    method Select(l: Label)
      requires Valid()
      modifies this, incomingNonces
      ensures Valid() && (incomingNonces == old(incomingNonces) || fresh(incomingNonces))
      ensures View() == Step(cfg, old(View()), l)
    {
      hide Handle, FinishSend, FinishTask;
      if l.Dial? || l.Wake? || l.Cancel? || l.Notice? {
        Reconnect(l);
        return;
      }
      match l
      case Emit(event) =>
        queue := queue + [event];
        trail := trail.(emitted := trail.emitted + [event]);
      case Finish(task, outcome) =>
        if connected && task < |running| {
          CompleteTask(task, outcome);
        }
      case Tick =>
        if connected && sending.None? {
          sending := Some(Heartbeat);
        }
      case TakeEvent =>
        if connected && sending.None? && queue != [] {
          sending := Some(EventMsg(queue[0]));
          queue := queue[1..];
        }
      case TakeAck =>
        if connected && sending.None? && acks != [] {
          sending := Some(AckMsg(acks[0]));
          acks := acks[1..];
        }
      case Sent(ok) =>
        if connected && sending.Some? {
          CompleteSend(ok);
        }
      case Receive(message, reading) =>
        if connected && sending.None? {
          HandleIncoming(message, reading);
        }
    }
  }

  /** The loop: a fresh client driven through any sequence of events, in which
      commands, acks and events are conserved, the hello comes first, and no
      envelope is accepted twice in a session, nor in the client's life if none
      comes again after a reconnect. */
  method Drive(cfg: Config, labels: seq<Label>) returns (c: Client)
    ensures c.View() == Run(cfg, labels)
    ensures c.View().emitted == EmittedBy(labels) && EventsConserved(c.View())
    ensures c.connected ==> Conserved(c.View().session.value) && HelloFirst(c.View().session.value)
    ensures forall drift: int :: drift <= DRIFT_LIMIT && ClocksAgree(Readings(labels), drift) ==>
              && (c.connected ==> NoReplay(c.log.accepted) && c.log.dispatched == CommandsIn(cfg, c.log.accepted))
              && (NoReplay(AcceptedEver(c.View())) <==> Uncrossed(cfg, labels))
  {
    hide Step, Conserved, EventsConserved, HelloFirst, NoReplay, ClocksAgree, Uncrossed;
    hide CommandsIn, Readings, EmittedBy;
    c := new Client(cfg);
    var i := 0;
    while i < |labels|
      invariant 0 <= i <= |labels|
      invariant fresh(c) && fresh(c.incomingNonces) && c.Valid() && c.cfg == cfg
      invariant c.View() == Run(cfg, labels[..i])
    {
      assert labels[..i + 1][..i] == labels[..i];
      c.Select(labels[i]);
      i := i + 1;
    }
    assert labels[..i] == labels;
    RunPromises(cfg, labels);
    forall drift: int | drift <= DRIFT_LIMIT && ClocksAgree(Readings(labels), drift)
      ensures c.connected ==> NoReplay(c.log.accepted) && c.log.dispatched == CommandsIn(cfg, c.log.accepted)
      ensures NoReplay(AcceptedEver(c.View())) <==> Uncrossed(cfg, labels)
    {
      NoEnvelopeActsTwice(cfg, labels, drift);
      ReplayAcrossSessionsExactly(cfg, labels, drift);
    }
  }

  lemma RunPromises(cfg: Config, labels: seq<Label>)
    ensures var a := Run(cfg, labels);
            && a.emitted == EmittedBy(labels) && EventsConserved(a)
            && (a.session.Some? ==> Conserved(a.session.value) && HelloFirst(a.session.value))
  {
    hide Run, CommandsConserved, AcksInOrder, EventsConserved, HelloFirst;
    RunConserves(cfg, labels);
    HelloComesFirst(cfg, labels);
    RunConservesEvents(cfg, labels);
  }
}
