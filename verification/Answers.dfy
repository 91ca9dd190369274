/** What the panel sees of the dispatcher: the acknowledgement of every command and
the events of every serial run, read off the commands alone. */
module Answers {
  import opened Basics
  import opened Protocol
  import opened FakeRuntime
  import opened Managed
  import opened Dispatcher

  /** The server has a live console: its last successful start that attached one
      was followed neither by its removal nor by the end of the stream. */
  predicate Live(moves: seq<Move>, server: string) {
    moves != [] &&
    var front, m := moves[..|moves| - 1], moves[|moves| - 1];
    match m
    case ConsoleEnds(s) => s != server && Live(front, server)
    case Cmd(cmd, env) =>
      if cmd.serverId != server || !Acked(front, m) then Live(front, server)
      else if cmd.action.Remove? then false
      else if cmd.action.Start? && env.attaches then true
      else Live(front, server)
  }

  lemma {:induction false} LiveExactly(moves: seq<Move>, server: string)
    ensures server in Run(moves).consoles <==> Live(moves, server)
  {
    if moves != [] {
      var front, m := moves[..|moves| - 1], moves[|moves| - 1];
      LiveExactly(front, server);
      hide HandleInner, Acked, Acts;
      if m.Cmd? {
        CommandTells(front, m);
        ActsExactly(Run(front), m);
        HandleAttaches(Run(front), m, server);
        assert server in Run(moves).consoles <==> Get(Run(moves).consoles, server).Some?;
      }
    }
  }

  // ---- Acknowledgements ----

  /** The error a command ends with after `moves`, if any. */
  function ErrorOf(moves: seq<Move>, m: Move): Option<string>
    requires m.Cmd?
  {
    var cmd, env := m.cmd, m.env;
    match cmd.action
    case Create => if cmd.spec.None? then Some("create command missing spec") else None
    case PullImage => if cmd.image.None? then Some("pull_image command missing image") else env.pull
    case ConsoleInput =>
      if cmd.input.None? then Some("console_input command missing input")
      else if !Live(moves, cmd.serverId) then Some("no active console session for server " + cmd.serverId)
      else env.write
    case Other => if env.other.Failed? then Some(env.other.error) else None
    case _ =>
      var target := Target(moves, m);
      if target.None? then Some("no known container for server " + cmd.serverId)
      else if Switch(moves, target.value).None? then Some("fake runtime: container " + target.value + " not found")
      else None
  }

  /** The acknowledgement it gets. */
  function AckOf(moves: seq<Move>, m: Move): Ack
    requires m.Cmd?
  {
    var error := ErrorOf(moves, m);
    Ack(m.cmd.commandId, error.None?, error,
        if error.None? && m.cmd.action.Other? then m.env.other.result else None)
  }

  lemma LifecycleError(w: World, cmd: Command, env: Env)
    requires IsLifecycle(cmd.action) && !cmd.action.Create?
    ensures HandleInner(w, cmd, env).outcome ==
            match ContainerFor(w, cmd)
            case None => Failed("no known container for server " + cmd.serverId)
            case Some(id) =>
              if id in w.containers then Done(None) else Failed("fake runtime: container " + id + " not found")
  {
  }

  lemma OtherError(w: World, cmd: Command, env: Env)
    requires !IsLifecycle(cmd.action) || cmd.action.Create?
    ensures HandleInner(w, cmd, env).outcome ==
            match cmd.action
            case Create => if cmd.spec.None? then Failed("create command missing spec") else Done(None)
            case PullImage =>
              if cmd.image.None? then Failed("pull_image command missing image") else Attempted(env.pull)
            case ConsoleInput =>
              if cmd.input.None? then Failed("console_input command missing input")
              else if cmd.serverId in w.consoles then Attempted(env.write)
              else Failed("no active console session for server " + cmd.serverId)
            case _ => env.other
  {
  }

  /** After every serial run, every command is acknowledged so. */
  lemma AckExactly(moves: seq<Move>, cmd: Command, env: Env)
    ensures AckFor(cmd, HandleInner(Run(moves), cmd, env).outcome) == AckOf(moves, Cmd(cmd, env))
  {
    var m, w := Cmd(cmd, env), Run(moves);
    hide HandleInner, Run, Live, Switch, Backing;
    if IsLifecycle(cmd.action) && !cmd.action.Create? {
      LifecycleError(w, cmd, env);
      var target := Target(moves, m);
      RunTells(moves, cmd.serverId, if target.Some? then target.value else "");
    } else {
      OtherError(w, cmd, env);
      LiveExactly(moves, cmd.serverId);
    }
  }

  // ---- Events ----

  /** What a command announces: the state a server is brought to, and the progress
      of a pull. */
  function EventsOf(moves: seq<Move>, m: Move): seq<Event> {
    if m.ConsoleEnds? then []
    else
      var cmd, env := m.cmd, m.env;
      match cmd.action
      case Start => if Acked(moves, m) then [Event(cmd.serverId, StateChanged, "running")] else []
      case Stop => if Acked(moves, m) then [Event(cmd.serverId, StateChanged, "offline")] else []
      case Kill => if Acked(moves, m) then [Event(cmd.serverId, StateChanged, "offline")] else []
      case PullImage =>
        if cmd.image.None? then []
        else
          [Event(cmd.serverId, ConsoleLine, "[sky] pulling image " + cmd.image.value + "\U{2026}")] +
          if env.pull.Some? then [] else [Event(cmd.serverId, ConsoleLine, "[sky] image ready")]
      case Other => env.otherEvents
      case _ => []
  }

  function Announced(moves: seq<Move>): seq<Event> {
    if moves == [] then []
    else
      var front, m := moves[..|moves| - 1], moves[|moves| - 1];
      Announced(front) + EventsOf(front, m)
  }

  lemma HandleEmits(w: World, m: Move)
    requires m.Cmd?
    ensures Apply(w, m).events == w.events +
            match m.cmd.action
            case Start => if Acts(w, m) then [Event(m.cmd.serverId, StateChanged, "running")] else []
            case Stop => if Acts(w, m) then [Event(m.cmd.serverId, StateChanged, "offline")] else []
            case Kill => if Acts(w, m) then [Event(m.cmd.serverId, StateChanged, "offline")] else []
            case PullImage =>
              if m.cmd.image.None? then []
              else
                [Event(m.cmd.serverId, ConsoleLine, "[sky] pulling image " + m.cmd.image.value + "\U{2026}")] +
                if m.env.pull.Some? then [] else [Event(m.cmd.serverId, ConsoleLine, "[sky] image ready")]
            case Other => m.env.otherEvents
            case _ => []
  {
    hide WithRunning, Created;
    if m.cmd.action.PullImage? && m.cmd.image.Some? {
      hide OnContainer, Acts;
      Concat3(w.events, [Event(m.cmd.serverId, ConsoleLine, "[sky] pulling image " + m.cmd.image.value + "\U{2026}")],
              [Event(m.cmd.serverId, ConsoleLine, "[sky] image ready")]);
    }
  }

  /** The events of every serial run, all of them and in order. */
  lemma {:induction false} EventsExactly(moves: seq<Move>)
    ensures Run(moves).events == Announced(moves)
  {
    if moves != [] {
      var front, m := moves[..|moves| - 1], moves[|moves| - 1];
      EventsExactly(front);
      hide HandleInner, Acked, Acts;
      if m.Cmd? {
        CommandTells(front, m);
        HandleEmits(Run(front), m);
      }
    }
  }

  // ---- The object ----

  /** The object driven through a serial run from an empty start: every command is
      acknowledged as said, the events are those said, and the heartbeat it then
      sends reports exactly the servers whose backing container exists. */
  method Serve(moves: seq<Move>) returns (d: Dispatcher, acks: seq<Option<Ack>>, beats: seq<Beat>)
    ensures d.View() == Run(moves) && Reports(Run(moves), beats)
    ensures |acks| == |moves|
    ensures forall i :: 0 <= i < |moves| ==> acks[i] == Given(moves, i)
    ensures d.events == Announced(moves)
    ensures forall s :: Reported(beats, s) <==>
              Backing(moves, s).Some? && Switch(moves, Backing(moves, s).value).Some?
    ensures forall i :: 0 <= i < |beats| ==>
              var id := Backing(moves, beats[i].serverId);
              id.Some? && Switch(moves, id.value) == Some(beats[i].running)
    ensures FreshRun(moves) && Unclashing(moves) ==> Inv(d.View())
  {
    var rt := new Runtime();
    d := new Dispatcher(rt);
    hide HandleInner, Unclashing, FreshRun, Backing, Switch, Reports, AckOf, Announced, Given;
    acks := [];
    var i := 0;
    while i < |moves|
      invariant 0 <= i <= |moves| && d.rt == rt && fresh(d) && fresh(rt)
      invariant d.View() == Run(moves[..i])
      invariant |acks| == i && forall k :: 0 <= k < i ==> acks[k] == Given(moves, k)
    {
      assert moves[..i + 1][..i] == moves[..i];
      GivenMeans(moves, i);
      var m := moves[i];
      match m {
        case Cmd(cmd, env) =>
          AckExactly(moves[..i], cmd, env);
          var ack := d.Handle(cmd, env);
          acks := acks + [Some(ack)];
        case ConsoleEnds(server) =>
          d.ConsoleEnded(server);
          acks := acks + [None];
      }
      i := i + 1;
    }
    assert moves[..i] == moves;
    beats := d.Heartbeat();
    HeartbeatInEveryRun(moves, beats);
    EventsExactly(moves);
    if FreshRun(moves) && Unclashing(moves) {
      SoundAtEnd(moves);
    }
  }

  /** The acknowledgement given in a run at step `i`. */
  ghost function Given(moves: seq<Move>, i: nat): Option<Ack>
    requires i < |moves|
  {
    if moves[i].Cmd? then Some(AckOf(moves[..i], moves[i])) else None
  }

  lemma GivenMeans(moves: seq<Move>, i: nat)
    requires i < |moves|
    ensures Given(moves, i) == if moves[i].Cmd? then Some(AckOf(moves[..i], moves[i])) else None
  {
  }
}
