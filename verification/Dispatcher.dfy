/** The command dispatcher over the container runtime: which container backs
which server, which consoles are attached, and what a heartbeat reports. */
module Dispatcher {
  import opened Basics
  import opened Protocol
  import opened FakeRuntime
  import opened Managed

  /** Everything a command can read or change. `consoles` names the container
      each live console is attached to. */
  datatype World = World(
    containers: Containers,
    tracked: map<string, string>,
    consoles: map<string, string>,
    events: seq<Event>)

  /** What the outside decides while one command is handled: the identifier of a
      new container, whether a console can be attached, the error of writing to
      one or of pulling an image, and how an action that is not modelled ends. */
  datatype Env = Env(
    newId: string,
    attaches: bool,
    write: Option<string>,
    pull: Option<string>,
    other: Outcome,
    otherEvents: seq<Event>)

  function Attempted(error: Option<string>): Outcome {
    if error.Some? then Failed(error.value) else Done(None)
  }

  datatype Result = Result(world: World, outcome: Outcome)

  function ContainerFor(w: World, cmd: Command): Option<string> {
    if cmd.containerId.Some? then cmd.containerId
    else if cmd.serverId in w.tracked then Some(w.tracked[cmd.serverId])
    else None
  }

  function NoContainer(cmd: Command): string {
    "no known container for server " + cmd.serverId
  }

  function Emitted(w: World, event: Event): World {
    w.(events := w.events + [event])
  }

  function StartOn(w: World, server: string, id: string, attaches: bool): World
    requires id in w.containers
  {
    World(
      WithRunning(w.containers, id, true),
      w.tracked[server := id],
      if server in w.consoles || !attaches then w.consoles else w.consoles[server := id],
      w.events + [Event(server, StateChanged, "running")])
  }

  function StopOn(w: World, server: string, id: string): World
    requires id in w.containers
  {
    Emitted(w.(containers := WithRunning(w.containers, id, false)), Event(server, StateChanged, "offline"))
  }

  function RemoveOn(w: World, server: string, id: string): World {
    w.(containers := w.containers - {id}, tracked := w.tracked - {server}, consoles := w.consoles - {server})
  }

  /** An action on an existing container. */
  function OnContainer(w: World, cmd: Command, attaches: bool): Result {
    match ContainerFor(w, cmd)
    case None => Result(w, Failed(NoContainer(cmd)))
    case Some(id) =>
      if id !in w.containers then Result(w, Failed(NotFound(id)))
      else if cmd.action.Start? then Result(StartOn(w, cmd.serverId, id, attaches), Done(None))
      else if cmd.action.Remove? then Result(RemoveOn(w, cmd.serverId, id), Done(None))
      else Result(StopOn(w, cmd.serverId, id), Done(None))
  }

  function Pulling(w: World, server: string, image: string, error: Option<string>): (r: Result)
    ensures (r.world.containers, r.world.tracked, r.world.consoles) == (w.containers, w.tracked, w.consoles)
  {
    var w' := Emitted(w, Event(server, ConsoleLine, "[sky] pulling image " + image + "\U{2026}"));
    if error.Some? then Result(w', Failed(error.value))
    else Result(Emitted(w', Event(server, ConsoleLine, "[sky] image ready")), Done(None))
  }

  function HandleInner(w: World, cmd: Command, env: Env): Result {
    match cmd.action
    case Create =>
      if cmd.spec.None? then Result(w, Failed("create command missing spec"))
      else
        Result(w.(containers := Created(w.containers, env.newId, cmd.spec.value),
                  tracked := w.tracked[cmd.serverId := env.newId]),
               Done(None))
    case PullImage =>
      if cmd.image.None? then Result(w, Failed("pull_image command missing image"))
      else Pulling(w, cmd.serverId, cmd.image.value, env.pull)
    case ConsoleInput =>
      if cmd.input.None? then Result(w, Failed("console_input command missing input"))
      else if cmd.serverId !in w.consoles then
        Result(w, Failed("no active console session for server " + cmd.serverId))
      else Result(w, Attempted(env.write))
    case Other => Result(w.(events := w.events + env.otherEvents), env.other)
    case _ => OnContainer(w, cmd, env.attaches)
  }

  // ---- Tracking ----

  /** Every tracked server has its own, existing container. */
  ghost predicate Inv(w: World) {
    && (forall s :: s in w.tracked ==> w.tracked[s] in w.containers)
    && (forall s, t :: s in w.tracked && t in w.tracked && w.tracked[s] == w.tracked[t] ==> s == t)
  }

  /** A start or removal aimed by explicit id at another server's container. */
  predicate Clash(w: World, cmd: Command) {
    && (cmd.action.Start? || cmd.action.Remove?)
    && cmd.containerId.Some?
    && exists t :: t in w.tracked && t != cmd.serverId && w.tracked[t] == cmd.containerId.value
  }

  /** The identifier of a new container is new. */
  predicate FreshId(w: World, cmd: Command, env: Env) {
    cmd.action.Create? ==> env.newId !in w.containers
  }

  lemma CreateKeepsInv(w: World, server: string, id: string, spec: Spec)
    requires Inv(w) && id !in w.containers
    ensures Inv(w.(containers := Created(w.containers, id, spec), tracked := w.tracked[server := id]))
  {
    var cs := Created(w.containers, id, spec);
    assert forall s :: s in w.tracked ==> w.tracked[s] in cs && w.tracked[s] != id;
    hide Created;
  }

  lemma SwitchKeepsInv(w: World, id: string, running: bool)
    requires Inv(w) && id in w.containers
    ensures Inv(w.(containers := WithRunning(w.containers, id, running)))
  {
  }

  /** A container that no server but `server` has. */
  predicate NoOthers(w: World, server: string, id: string) {
    forall t :: t in w.tracked && t != server ==> w.tracked[t] != id
  }

  lemma StartInvExactly(w: World, server: string, id: string)
    requires Inv(w) && id in w.containers
    ensures Inv(w.(tracked := w.tracked[server := id])) <==> NoOthers(w, server, id)
  {
    var tracked := w.tracked[server := id];
    if t :| t in w.tracked && t != server && w.tracked[t] == id {
      assert tracked[t] == tracked[server];
    }
  }

  lemma RemoveInvExactly(w: World, server: string, id: string)
    requires Inv(w)
    ensures Inv(w.(containers := w.containers - {id}, tracked := w.tracked - {server})) <==> NoOthers(w, server, id)
  {
    var tracked := w.tracked - {server};
    if t :| t in w.tracked && t != server && w.tracked[t] == id {
      assert t in tracked && tracked[t] == id;
    }
  }

  lemma SameInv(w: World, w': World)
    requires w.containers == w'.containers && w.tracked == w'.tracked
    ensures Inv(w) <==> Inv(w')
  {
  }

  lemma ClashExactly(w: World, cmd: Command, id: string)
    requires Inv(w) && ContainerFor(w, cmd) == Some(id) && (cmd.action.Start? || cmd.action.Remove?)
    ensures Clash(w, cmd) <==> !NoOthers(w, cmd.serverId, id)
  {
  }

  lemma ContainerInvExactly(w: World, cmd: Command, attaches: bool)
    requires Inv(w) && (cmd.action.Start? || cmd.action.Remove? || cmd.action.Stop? || cmd.action.Kill?)
    ensures Inv(OnContainer(w, cmd, attaches).world) <==> !Clash(w, cmd)
  {
    var target, s, w' := ContainerFor(w, cmd), cmd.serverId, OnContainer(w, cmd, attaches).world;
    if target.Some? && target.value in w.containers {
      var id := target.value;
      if cmd.action.Start? {
        var v := w.(containers := w'.containers);
        SwitchKeepsInv(w, id, true);
        StartInvExactly(v, s, id);
        SameInv(v.(tracked := w'.tracked), w');
        ClashExactly(w, cmd, id);
      } else if cmd.action.Remove? {
        RemoveInvExactly(w, s, id);
        SameInv(w.(containers := w'.containers, tracked := w'.tracked), w');
        ClashExactly(w, cmd, id);
      } else {
        SwitchKeepsInv(w, id, false);
        SameInv(w.(containers := w'.containers), w');
      }
    }
  }

  /** Exactly which commands keep the tracking sound: all but those. */
  lemma InvKeptExactly(w: World, cmd: Command, env: Env)
    requires Inv(w) && FreshId(w, cmd, env)
    ensures Inv(HandleInner(w, cmd, env).world) <==> !Clash(w, cmd)
  {
    hide Inv, OnContainer, Created;
    var w' := HandleInner(w, cmd, env).world;
    match cmd.action {
      case Create =>
        if cmd.spec.Some? {
          CreateKeepsInv(w, cmd.serverId, env.newId, cmd.spec.value);
        }
      case Start => ContainerInvExactly(w, cmd, env.attaches);
      case Stop => ContainerInvExactly(w, cmd, env.attaches);
      case Kill => ContainerInvExactly(w, cmd, env.attaches);
      case Remove => ContainerInvExactly(w, cmd, env.attaches);
      case _ => SameInv(w, w');
    }
  }

  // ---- The lifecycle machine this refines ----

  type Servers = map<string, bool>

  /** What a heartbeat can see: each tracked server and whether it runs. */
  ghost function Abs(w: World): Servers
    requires Inv(w)
  {
    map s | s in w.tracked :: w.containers[w.tracked[s]].running
  }

  predicate IsLifecycle(a: Action) {
    a.Create? || a.Start? || a.Stop? || a.Kill? || a.Remove?
  }

  /** The reference: servers are known or not, running or not. */
  predicate AbsOk(m: Servers, cmd: Command) {
    if cmd.action.Create? then cmd.spec.Some? else cmd.serverId in m
  }

  function AbsStep(m: Servers, cmd: Command): Servers {
    if !IsLifecycle(cmd.action) || !AbsOk(m, cmd) then m
    else if cmd.action.Remove? then m - {cmd.serverId}
    else m[cmd.serverId := cmd.action.Start?]
  }

  lemma CreateRefines(w: World, server: string, id: string, spec: Spec)
    requires Inv(w) && id !in w.containers
    ensures var w' := w.(containers := Created(w.containers, id, spec), tracked := w.tracked[server := id]);
            Inv(w') && Abs(w') == Abs(w)[server := false]
  {
    CreateKeepsInv(w, server, id, spec);
    assert forall s :: s in w.tracked ==> w.tracked[s] in w.containers;
    hide Inv;
  }

  lemma RunningRefines(w: World, server: string, running: bool)
    requires Inv(w) && server in w.tracked
    ensures var w' := w.(containers := WithRunning(w.containers, w.tracked[server], running));
            Inv(w') && Abs(w') == Abs(w)[server := running]
  {
  }

  lemma RemoveRefines(w: World, server: string)
    requires Inv(w) && server in w.tracked
    ensures var w' := w.(containers := w.containers - {w.tracked[server]}, tracked := w.tracked - {server});
            Inv(w') && Abs(w') == Abs(w) - {server}
  {
  }

  lemma SameTracking(w: World, w': World)
    requires Inv(w) && w.containers == w'.containers && w.tracked == w'.tracked
    ensures Inv(w') && Abs(w') == Abs(w)
  {
  }

  lemma TrackedIsKnown(w: World, server: string)
    requires Inv(w)
    ensures server in Abs(w) <==> server in w.tracked
    ensures server in w.tracked ==>
              w.tracked[server] in w.containers && w.tracked[server := w.tracked[server]] == w.tracked
  {
  }

  /** A command without an explicit container, by its effect on containers and
      tracking. */
  datatype Effect = Creates(spec: Spec) | Runs(running: bool) | Removes | Nothing

  function EffectOf(w: World, cmd: Command): Effect {
    if cmd.action.Create? then if cmd.spec.Some? then Creates(cmd.spec.value) else Nothing
    else if !IsLifecycle(cmd.action) || cmd.serverId !in w.tracked then Nothing
    else if cmd.action.Remove? then Removes
    else Runs(cmd.action.Start?)
  }

  function ContainersAfter(w: World, server: string, id: string, e: Effect): Containers
    requires e.Runs? || e.Removes? ==> server in w.tracked
    requires e.Runs? ==> w.tracked[server] in w.containers
  {
    match e
    case Creates(spec) => Created(w.containers, id, spec)
    case Runs(running) => WithRunning(w.containers, w.tracked[server], running)
    case Removes => w.containers - {w.tracked[server]}
    case Nothing => w.containers
  }

  function TrackedAfter(w: World, server: string, id: string, e: Effect): map<string, string> {
    match e
    case Creates(_) => w.tracked[server := id]
    case Removes => w.tracked - {server}
    case _ => w.tracked
  }

  lemma ContainerEffect(w: World, cmd: Command, attaches: bool)
    requires IsLifecycle(cmd.action) && !cmd.action.Create? && cmd.containerId.None?
    requires cmd.serverId in w.tracked ==> w.tracked[cmd.serverId] in w.containers
    ensures var r, e := OnContainer(w, cmd, attaches), EffectOf(w, cmd);
            && r.world.containers == ContainersAfter(w, cmd.serverId, "", e)
            && r.world.tracked == TrackedAfter(w, cmd.serverId, "", e)
            && (r.outcome.Done? <==> !e.Nothing?)
  {
    hide WithRunning;
    var s := cmd.serverId;
    if s in w.tracked {
      assert w.tracked[s := w.tracked[s]] == w.tracked;
    }
  }

  lemma HandleEffect(w: World, cmd: Command, env: Env)
    requires cmd.containerId.None?
    requires cmd.serverId in w.tracked ==> w.tracked[cmd.serverId] in w.containers
    ensures var r, e := HandleInner(w, cmd, env), EffectOf(w, cmd);
            && r.world.containers == ContainersAfter(w, cmd.serverId, env.newId, e)
            && r.world.tracked == TrackedAfter(w, cmd.serverId, env.newId, e)
            && (IsLifecycle(cmd.action) ==> (r.outcome.Done? <==> !e.Nothing?))
  {
    hide WithRunning, Created, OnContainer, Pulling;
    if IsLifecycle(cmd.action) && !cmd.action.Create? {
      ContainerEffect(w, cmd, env.attaches);
    }
  }

  /** One command through tracking and runtime is one step of the reference, with
      the same success. */
  ghost predicate Agrees(w: World, cmd: Command, env: Env)
    requires Inv(w)
  {
    var r := HandleInner(w, cmd, env);
    && Inv(r.world)
    && Abs(r.world) == AbsStep(Abs(w), cmd)
    && (IsLifecycle(cmd.action) ==> (r.outcome.Done? <==> AbsOk(Abs(w), cmd)))
  }

  lemma NamelessRefines(w: World, cmd: Command, env: Env)
    requires Inv(w) && FreshId(w, cmd, env) && cmd.containerId.None?
    ensures Agrees(w, cmd, env)
  {
    hide HandleInner, Inv, Abs, WithRunning, Created;
    var w', s, e := HandleInner(w, cmd, env).world, cmd.serverId, EffectOf(w, cmd);
    TrackedIsKnown(w, s);
    HandleEffect(w, cmd, env);
    match e {
      case Creates(spec) => CreateRefines(w, s, env.newId, spec);
      case Runs(running) => RunningRefines(w, s, running);
      case Removes => RemoveRefines(w, s);
      case Nothing =>
    }
    SameTracking(w.(containers := w'.containers, tracked := w'.tracked), w');
  }

  /** The command names no container, or the one it would find by itself. */
  predicate NamesOwn(w: World, cmd: Command) {
    || !IsLifecycle(cmd.action) || cmd.action.Create? || cmd.containerId.None?
    || cmd.containerId == Get(w.tracked, cmd.serverId)
  }

  /** The server is tracked elsewhere, and still the command does to it what the
      reference says: it starts it on a container of nobody's, forgets it, or
      stops what does not run. */
  predicate NamesOther(w: World, cmd: Command)
    requires cmd.containerId.Some? && cmd.serverId in w.tracked && w.tracked[cmd.serverId] in w.containers
  {
    var id := cmd.containerId.value;
    && id in w.containers
    && (cmd.action.Stop? || cmd.action.Kill? ==>
          && !w.containers[w.tracked[cmd.serverId]].running
          && !(w.containers[id].running && exists t :: t in w.tracked && w.tracked[t] == id))
  }

  /** Which commands the reference covers, in a world with sound tracking. */
  ghost predicate Conforms(w: World, cmd: Command)
    requires Inv(w)
  {
    || NamesOwn(w, cmd)
    || (if cmd.serverId in w.tracked then NamesOther(w, cmd) && !Clash(w, cmd)
        else cmd.containerId.value !in w.containers)
  }

  lemma AbsAt(w: World, server: string)
    requires Inv(w)
    ensures server in w.tracked ==> w.tracked[server] in w.containers
    ensures Get(Abs(w), server) ==
            if server in w.tracked then Some(w.containers[w.tracked[server]].running) else None
  {
  }

  lemma SameServers(a: Servers, b: Servers)
    requires forall s :: Get(a, s) == Get(b, s)
    ensures a == b
  {
    assert forall s :: s in a <==> Get(a, s).Some?;
    assert forall s :: s in b <==> Get(b, s).Some?;
    assert forall s :: s in a ==> Get(a, s).value == a[s];
    assert forall s :: s in b ==> Get(b, s).value == b[s];
  }

  lemma NamedStart(w: World, server: string, id: string)
    requires Inv(w) && server in w.tracked && id in w.containers && NoOthers(w, server, id)
    ensures var w' := w.(containers := WithRunning(w.containers, id, true), tracked := w.tracked[server := id]);
            Inv(w') && Abs(w') == Abs(w)[server := true]
  {
    var v := w.(containers := WithRunning(w.containers, id, true));
    var w' := v.(tracked := w.tracked[server := id]);
    SwitchKeepsInv(w, id, true);
    StartInvExactly(v, server, id);
    hide Inv, Abs;
    forall t
      ensures Get(Abs(w'), t) == Get(Abs(w)[server := true], t)
    {
      AbsAt(w, t);
      AbsAt(w', t);
    }
    SameServers(Abs(w'), Abs(w)[server := true]);
  }

  lemma NamedRemove(w: World, server: string, id: string)
    requires Inv(w) && server in w.tracked && NoOthers(w, server, id)
    ensures var w' := w.(containers := w.containers - {id}, tracked := w.tracked - {server});
            Inv(w') && Abs(w') == Abs(w) - {server}
  {
    RemoveInvExactly(w, server, id);
    assert forall t :: t in w.tracked ==> w.tracked[t] in w.containers;
    hide Inv;
  }

  lemma NamedStop(w: World, server: string, id: string)
    requires Inv(w) && server in w.tracked && id in w.containers && id != w.tracked[server]
    ensures var w' := w.(containers := WithRunning(w.containers, id, false));
            && Inv(w')
            && (Abs(w') == Abs(w)[server := false] <==>
                  && !w.containers[w.tracked[server]].running
                  && !(w.containers[id].running && exists t :: t in w.tracked && w.tracked[t] == id))
  {
    var w' := w.(containers := WithRunning(w.containers, id, false));
    SwitchKeepsInv(w, id, false);
    hide Inv, Abs;
    var a, b := Abs(w'), Abs(w)[server := false];
    AbsAt(w, server);
    AbsAt(w', server);
    if t :| t in w.tracked && w.tracked[t] == id && w.containers[id].running {
      AbsAt(w, t);
      AbsAt(w', t);
      assert Get(a, t) != Get(b, t);
    } else if !w.containers[w.tracked[server]].running {
      forall t
        ensures Get(a, t) == Get(b, t)
      {
        AbsAt(w, t);
        AbsAt(w', t);
      }
      SameServers(a, b);
    } else {
      assert Get(a, server) != Get(b, server);
    }
  }

  /** A command that names another container than its server's. */
  lemma NamedRefines(w: World, cmd: Command, env: Env)
    requires Inv(w) && !NamesOwn(w, cmd)
    ensures Agrees(w, cmd, env) <==> Conforms(w, cmd)
  {
    var s, id, w' := cmd.serverId, cmd.containerId.value, HandleInner(w, cmd, env).world;
    TrackedIsKnown(w, s);
    if id !in w.containers {
      assert w' == w && !HandleInner(w, cmd, env).outcome.Done?;
      assert s !in w.tracked ==> AbsStep(Abs(w), cmd) == Abs(w);
    } else {
      assert HandleInner(w, cmd, env).outcome.Done?;
      if s in w.tracked {
        NamedOtherRefines(w, cmd, env);
      }
    }
  }

  /** What a command does that finds its container. */
  lemma TargetActs(w: World, cmd: Command, env: Env, id: string)
    requires IsLifecycle(cmd.action) && !cmd.action.Create?
    requires ContainerFor(w, cmd) == Some(id) && id in w.containers
    ensures var s, r := cmd.serverId, HandleInner(w, cmd, env);
            && r.outcome == Done(None)
            && r.world.containers == (if cmd.action.Remove? then w.containers - {id}
                                      else WithRunning(w.containers, id, cmd.action.Start?))
            && r.world.tracked == (if cmd.action.Remove? then w.tracked - {s}
                                   else if cmd.action.Start? then w.tracked[s := id]
                                   else w.tracked)
  {
  }

  lemma NamedOtherRefines(w: World, cmd: Command, env: Env)
    requires Inv(w) && !NamesOwn(w, cmd) && cmd.serverId in w.tracked && cmd.containerId.value in w.containers
    ensures Agrees(w, cmd, env) <==> NamesOther(w, cmd) && !Clash(w, cmd)
  {
    var s, id, r := cmd.serverId, cmd.containerId.value, HandleInner(w, cmd, env);
    TrackedIsKnown(w, s);
    InvKeptExactly(w, cmd, env);
    TargetActs(w, cmd, env, id);
    hide HandleInner;
    if !Clash(w, cmd) {
      assert cmd.action.Start? || cmd.action.Remove? ==> NoOthers(w, s, id) by {
        if cmd.action.Start? || cmd.action.Remove? {
          ClashExactly(w, cmd, id);
        }
      }
      hide Inv, Abs, WithRunning, NoOthers, Clash;
      if cmd.action.Start? {
        NamedStart(w, s, id);
      } else if cmd.action.Remove? {
        NamedRemove(w, s, id);
      } else {
        NamedStop(w, s, id);
      }
      SameTracking(w.(containers := r.world.containers, tracked := r.world.tracked), r.world);
    }
  }

  /** Exactly which commands are one step of the reference. */
  lemma HandleRefines(w: World, cmd: Command, env: Env)
    requires Inv(w) && FreshId(w, cmd, env)
    ensures Agrees(w, cmd, env) <==> Conforms(w, cmd)
  {
    if NamesOwn(w, cmd) {
      var nameless := cmd.(containerId := None);
      assert HandleInner(w, cmd, env) == HandleInner(w, nameless, env);
      hide HandleInner, Abs, Inv;
      NamelessRefines(w, nameless, env);
    } else {
      NamedRefines(w, cmd, env);
    }
  }

  /** A step of a serial run: a command, or a console stream that ends. */
  datatype Move = Cmd(cmd: Command, env: Env) | ConsoleEnds(server: string)

  function Apply(w: World, m: Move): World {
    match m
    case Cmd(cmd, env) => HandleInner(w, cmd, env).world
    case ConsoleEnds(server) => w.(consoles := w.consoles - {server})
  }

  function Run(moves: seq<Move>): World {
    if moves == [] then World(map[], map[], map[], [])
    else Apply(Run(moves[..|moves| - 1]), moves[|moves| - 1])
  }

  function AbsRun(moves: seq<Move>): Servers {
    if moves == [] then map[]
    else
      var front, m := AbsRun(moves[..|moves| - 1]), moves[|moves| - 1];
      if m.Cmd? then AbsStep(front, m.cmd) else front
  }

  /** New identifiers are new when they are drawn. */
  ghost predicate FreshRun(moves: seq<Move>) {
    moves == [] ||
    var front, m := moves[..|moves| - 1], moves[|moves| - 1];
    FreshRun(front) && (m.Cmd? ==> FreshId(Run(front), m.cmd, m.env))
  }

  /** No command clashes when it comes. */
  ghost predicate Unclashing(moves: seq<Move>) {
    moves == [] ||
    var front, m := moves[..|moves| - 1], moves[|moves| - 1];
    Unclashing(front) && (m.Cmd? ==> !Clash(Run(front), m.cmd))
  }

  lemma PrefixesOf(moves: seq<Move>)
    requires moves != []
    ensures var front := moves[..|moves| - 1];
            && (forall n :: 0 <= n <= |front| ==> moves[..n] == front[..n])
            && front[..|front|] == front && moves[..|moves|] == moves
  {
  }

  /** Tracking is sound all through a serial run exactly when no command of it
      clashes when it comes. */
  lemma {:induction false} TrackingStaysSound(moves: seq<Move>)
    requires FreshRun(moves)
    ensures (forall n :: 0 <= n <= |moves| ==> Inv(Run(moves[..n]))) <==> Unclashing(moves)
  {
    if moves == [] {
      assert forall n :: 0 <= n <= |moves| ==> moves[..n] == [];
    } else {
      var front, m := moves[..|moves| - 1], moves[|moves| - 1];
      TrackingStaysSound(front);
      PrefixesOf(moves);
      hide HandleInner, Clash;
      if m.Cmd? && Inv(Run(front)) {
        InvKeptExactly(Run(front), m.cmd, m.env);
      } else if Inv(Run(front)) {
        SameTracking(Run(front), Run(moves));
      }
    }
  }

  lemma SoundAtEnd(moves: seq<Move>)
    requires FreshRun(moves) && Unclashing(moves)
    ensures Inv(Run(moves))
  {
    TrackingStaysSound(moves);
    assert moves[..|moves|] == moves;
  }

  /** Every command is one the reference covers when it comes. */
  ghost predicate Conforming(moves: seq<Move>) {
    moves == [] ||
    var front, m := moves[..|moves| - 1], moves[|moves| - 1];
    Conforming(front) && Inv(Run(front)) && (m.Cmd? ==> Conforms(Run(front), m.cmd))
  }

  lemma {:induction false} RunRefines(moves: seq<Move>)
    requires FreshRun(moves) && Conforming(moves)
    ensures Inv(Run(moves)) && Abs(Run(moves)) == AbsRun(moves)
  {
    if moves != [] {
      var front, m := moves[..|moves| - 1], moves[|moves| - 1];
      RunRefines(front);
      hide HandleInner, AbsStep, Conforms;
      if m.Cmd? {
        HandleRefines(Run(front), m.cmd, m.env);
      }
    }
  }

  /** The run has reached the state of the reference, and its last command was
      acknowledged as the reference says. */
  ghost predicate Refined(moves: seq<Move>) {
    && Inv(Run(moves)) && Abs(Run(moves)) == AbsRun(moves)
    && (moves == [] ||
        var front, m := moves[..|moves| - 1], moves[|moves| - 1];
        m.Cmd? && IsLifecycle(m.cmd.action) ==>
          (HandleInner(Run(front), m.cmd, m.env).outcome.Done? <==> AbsOk(AbsRun(front), m.cmd)))
  }

  lemma RefinedStep(moves: seq<Move>)
    requires FreshRun(moves) && moves != [] && Refined(moves[..|moves| - 1])
    ensures var front, m := moves[..|moves| - 1], moves[|moves| - 1];
            Inv(Run(front)) && (Refined(moves) <==> (m.Cmd? ==> Conforms(Run(front), m.cmd)))
  {
    var front, m := moves[..|moves| - 1], moves[|moves| - 1];
    hide HandleInner, AbsStep, AbsOk, Conforms, Inv, Abs;
    if m.Cmd? {
      HandleRefines(Run(front), m.cmd, m.env);
    } else {
      SameTracking(Run(front), Run(moves));
    }
  }

  /** The composed system and the reference agree all through a serial run, in
      state and in acknowledgements, exactly when every command is one the
      reference covers when it comes. */
  lemma {:induction false} RunRefinesExactly(moves: seq<Move>)
    requires FreshRun(moves)
    ensures (forall n :: 0 <= n <= |moves| ==> Refined(moves[..n])) <==> Conforming(moves)
  {
    if moves == [] {
      assert forall n :: 0 <= n <= |moves| ==> moves[..n] == [];
    } else {
      var front := moves[..|moves| - 1];
      RunRefinesExactly(front);
      PrefixesOf(moves);
      assert forall n :: 0 <= n <= |front| ==> (Refined(moves[..n]) <==> Refined(front[..n]));
      hide Refined, Conforms, Inv;
      if Refined(front) {
        RefinedStep(moves);
      }
    }
  }

  /** A lifecycle command succeeds in such a run exactly when the reference says. */
  lemma AckedExactly(moves: seq<Move>, cmd: Command, env: Env)
    requires FreshRun(moves + [Cmd(cmd, env)]) && Conforming(moves + [Cmd(cmd, env)]) && IsLifecycle(cmd.action)
    ensures HandleInner(Run(moves), cmd, env).outcome.Done? <==> AbsOk(AbsRun(moves), cmd)
  {
    var all := moves + [Cmd(cmd, env)];
    assert all[..|all| - 1] == moves;
    hide HandleInner, AbsOk, Run, AbsRun, Conforms;
    RunRefines(moves);
    HandleRefines(Run(moves), cmd, env);
  }

  /** The last lifecycle action for `server` that succeeded. */
  function LastDone(moves: seq<Move>, server: string): Option<Action> {
    if moves == [] then None
    else
      var front, m := moves[..|moves| - 1], moves[|moves| - 1];
      if m.Cmd? && m.cmd.serverId == server && Acked(front, m) then Some(m.cmd.action)
      else LastDone(front, server)
  }

  ghost predicate Tells(last: Option<Action>, m: Servers, server: string) {
    && (server in m <==> last.Some? && !last.value.Remove?)
    && (server in m ==> (m[server] <==> last.value.Start?))
  }

  lemma AbsStepTells(m: Servers, cmd: Command, server: string, last: Option<Action>)
    requires Tells(last, m, server)
    ensures var acted := cmd.serverId == server && IsLifecycle(cmd.action) && AbsOk(m, cmd);
            Tells(if acted then Some(cmd.action) else last, AbsStep(m, cmd), server)
  {
  }

  /** In such a run a server is tracked exactly when its last successful lifecycle
      command was not a removal, and is reported running exactly when it was a
      start. */
  lemma {:induction false} TrackedExactly(moves: seq<Move>, server: string)
    requires FreshRun(moves) && Conforming(moves)
    ensures Inv(Run(moves)) && Tells(LastDone(moves, server), Abs(Run(moves)), server)
  {
    RunRefines(moves);
    if moves != [] {
      var front, m := moves[..|moves| - 1], moves[|moves| - 1];
      TrackedExactly(front, server);
      RunRefines(front);
      hide HandleInner, Abs, Inv, AbsStep, AbsOk, Conforms, Acked;
      if m.Cmd? {
        AckedIsDone(front, m);
        HandleRefines(Run(front), m.cmd, m.env);
        AbsStepTells(AbsRun(front), m.cmd, server, LastDone(front, server));
      }
    }
  }

  // ---- State events ----

  /** The state the events last announced for a server. */
  function LastState(events: seq<Event>, server: string): Option<string> {
    if events == [] then None
    else
      var e := events[|events| - 1];
      if e.kind.StateChanged? && e.serverId == server then Some(e.message)
      else LastState(events[..|events| - 1], server)
  }

  predicate IsPower(a: Action) {
    a.Start? || a.Stop? || a.Kill?
  }

  /** The last start, stop or kill for a server that succeeded. */
  function LastPower(moves: seq<Move>, server: string): Option<Action> {
    if moves == [] then None
    else
      var front, m := moves[..|moves| - 1], moves[|moves| - 1];
      if m.Cmd? && m.cmd.serverId == server && IsPower(m.cmd.action) && Acked(front, m) then Some(m.cmd.action)
      else LastPower(front, server)
  }

  /** Actions outside the model announce no state. */
  ghost predicate Quiet(moves: seq<Move>) {
    forall i, j :: 0 <= i < |moves| && moves[i].Cmd? && 0 <= j < |moves[i].env.otherEvents| ==>
      !moves[i].env.otherEvents[j].kind.StateChanged?
  }

  lemma {:induction false} LastStateAppend(events: seq<Event>, more: seq<Event>, server: string)
    requires forall i :: 0 <= i < |more| ==> !more[i].kind.StateChanged?
    ensures LastState(events + more, server) == LastState(events, server)
    decreases |more|
  {
    if more == [] {
      assert events + more == events;
    } else {
      LastStateAppend(events, more[..|more| - 1], server);
      assert (events + more)[..|events + more| - 1] == events + more[..|more| - 1];
    }
  }

  lemma LastStateSnoc(events: seq<Event>, e: Event, server: string)
    ensures LastState(events + [e], server) ==
            if e.kind.StateChanged? && e.serverId == server then Some(e.message) else LastState(events, server)
  {
    assert (events + [e])[..|events + [e]| - 1] == events;
  }

  /** What one command announces. */
  lemma HandleAnnounces(w: World, cmd: Command, env: Env, server: string)
    requires forall j :: 0 <= j < |env.otherEvents| ==> !env.otherEvents[j].kind.StateChanged?
    ensures var r := HandleInner(w, cmd, env);
            LastState(r.world.events, server) ==
              if cmd.serverId == server && r.outcome.Done? && IsPower(cmd.action)
              then Some(if cmd.action.Start? then "running" else "offline")
              else LastState(w.events, server)
  {
    hide LastState, WithRunning;
    var state := if cmd.action.Start? then "running" else "offline";
    LastStateSnoc(w.events, Event(cmd.serverId, StateChanged, state), server);
    LastStateAppend(w.events, env.otherEvents, server);
    if cmd.action.PullImage? && cmd.image.Some? {
      var pulling := Event(cmd.serverId, ConsoleLine, "[sky] pulling image " + cmd.image.value + "\U{2026}");
      LastStateSnoc(w.events, pulling, server);
      LastStateSnoc(w.events + [pulling], Event(cmd.serverId, ConsoleLine, "[sky] image ready"), server);
    }
  }

  /** In every serial run the last state announced for a server is the one its
      last successful start, stop or kill brought about. */
  lemma {:induction false} StateEventsTell(moves: seq<Move>, server: string)
    requires Quiet(moves)
    ensures LastState(Run(moves).events, server) == match LastPower(moves, server)
              case None => None
              case Some(a) => Some(if a.Start? then "running" else "offline")
  {
    hide HandleInner, LastState, Acked;
    if moves == [] {
      NothingAnnounced(server);
    } else {
      var front, m := moves[..|moves| - 1], moves[|moves| - 1];
      assert forall i :: 0 <= i < |front| ==> front[i] == moves[i];
      StateEventsTell(front, server);
      if m.Cmd? {
        AckedIsDone(front, m);
        HandleAnnounces(Run(front), m.cmd, m.env, server);
      }
    }
  }

  lemma NothingAnnounced(server: string)
    ensures LastState([], server) == None
  {
  }

  // ---- Runs that name containers ----

  /** The container a command acts on. */
  function TargetOf(w: World, cmd: Command, env: Env): Option<string> {
    if cmd.action.Create? then Some(env.newId) else ContainerFor(w, cmd)
  }

  predicate Acts(w: World, m: Move) {
    m.Cmd? && IsLifecycle(m.cmd.action) && HandleInner(w, m.cmd, m.env).outcome.Done?
  }

  // The commands of a run, read without the dispatcher: what each was about,
  // whether it can have succeeded, and what is left behind by those that did.

  /** The container a command is about after `moves`: the new one, the one it
      names, or else the one that backs its server. */
  function Target(moves: seq<Move>, m: Move): Option<string>
    requires m.Cmd?
    decreases |moves|, 1
  {
    if m.cmd.action.Create? then Some(m.env.newId)
    else if m.cmd.containerId.Some? then m.cmd.containerId
    else Backing(moves, m.cmd.serverId)
  }

  /** A create succeeds with a spec, any other lifecycle command on a container
      that exists. */
  predicate Acked(moves: seq<Move>, m: Move)
    requires m.Cmd?
    decreases |moves|, 2
  {
    && IsLifecycle(m.cmd.action)
    && (if m.cmd.action.Create? then m.cmd.spec.Some?
        else Target(moves, m).Some? && Switch(moves, Target(moves, m).value).Some?)
  }

  /** The container the last successful create or start of a server was about,
      unless the server was removed since. */
  function Backing(moves: seq<Move>, server: string): Option<string>
    decreases |moves|, 0
  {
    if moves == [] then None
    else
      var front, m := moves[..|moves| - 1], moves[|moves| - 1];
      if !m.Cmd? || m.cmd.serverId != server || !Acked(front, m) || m.cmd.action.Stop? || m.cmd.action.Kill? then
        Backing(front, server)
      else if m.cmd.action.Remove? then None
      else Target(front, m)
  }

  /** What the last successful command about a container, for whichever server,
      made of it: running, not running, or gone. */
  function Switch(moves: seq<Move>, id: string): Option<bool>
    decreases |moves|, 0
  {
    if moves == [] then None
    else
      var front, m := moves[..|moves| - 1], moves[|moves| - 1];
      if !m.Cmd? || !Acked(front, m) || Target(front, m) != Some(id) then Switch(front, id)
      else if m.cmd.action.Remove? then None
      else Some(m.cmd.action.Start?)
  }

  ghost predicate Switched(w: World, id: string, last: Option<bool>) {
    (id in w.containers <==> last.Some?) && (id in w.containers ==> w.containers[id].running == last.value)
  }

  lemma ActsExactly(w: World, m: Move)
    ensures Acts(w, m) <==>
            && m.Cmd? && IsLifecycle(m.cmd.action)
            && (if m.cmd.action.Create? then m.cmd.spec.Some?
                else ContainerFor(w, m.cmd).Some? && ContainerFor(w, m.cmd).value in w.containers)
  {
  }

  /** What one command does to the tracking of a server, ... */
  lemma HandleTracks(w: World, m: Move, server: string)
    requires m.Cmd?
    ensures Get(Apply(w, m).tracked, server) ==
            if !Acts(w, m) || m.cmd.serverId != server || m.cmd.action.Stop? || m.cmd.action.Kill? then
              Get(w.tracked, server)
            else if m.cmd.action.Remove? then None
            else TargetOf(w, m.cmd, m.env)
  {
    hide WithRunning, Created, Pulling;
  }

  /** ... to its console ... */
  lemma HandleAttaches(w: World, m: Move, server: string)
    requires m.Cmd?
    ensures Get(Apply(w, m).consoles, server) ==
            if !Acts(w, m) || m.cmd.serverId != server then Get(w.consoles, server)
            else if m.cmd.action.Remove? then None
            else if m.cmd.action.Start? && server !in w.consoles && m.env.attaches then ContainerFor(w, m.cmd)
            else Get(w.consoles, server)
  {
    hide WithRunning, Created, Pulling;
  }

  /** ... and to a container. */
  lemma HandleSwitches(w: World, m: Move, id: string)
    requires m.Cmd?
    ensures var w', target := Apply(w, m), TargetOf(w, m.cmd, m.env);
            if !Acts(w, m) || target != Some(id) then Get(w'.containers, id) == Get(w.containers, id)
            else Switched(w', id, if m.cmd.action.Remove? then None else Some(m.cmd.action.Start?))
  {
  }

  /** In every serial run, whatever containers its commands name, the tracking
      map and the containers are what the commands say. */
  lemma {:induction false} RunTells(moves: seq<Move>, server: string, id: string)
    ensures Get(Run(moves).tracked, server) == Backing(moves, server)
    ensures Switched(Run(moves), id, Switch(moves, id))
    decreases |moves|, 0
  {
    if moves != [] {
      var front, m := moves[..|moves| - 1], moves[|moves| - 1];
      RunTells(front, server, id);
      hide HandleInner, TargetOf, Acts, Acked, Target;
      if m.Cmd? {
        CommandTells(front, m);
        HandleTracks(Run(front), m, server);
        HandleSwitches(Run(front), m, id);
      }
    }
  }

  lemma CommandTells(moves: seq<Move>, m: Move)
    requires m.Cmd?
    ensures Target(moves, m) == TargetOf(Run(moves), m.cmd, m.env)
    ensures Acked(moves, m) <==> Acts(Run(moves), m)
    decreases |moves|, 1
  {
    var target := Target(moves, m);
    hide HandleInner, Run, Acts, Backing, Switch;
    ActsExactly(Run(moves), m);
    RunTells(moves, m.cmd.serverId, if target.Some? then target.value else "");
  }

  lemma AckedIsDone(moves: seq<Move>, m: Move)
    requires m.Cmd?
    ensures Acked(moves, m) <==> IsLifecycle(m.cmd.action) && HandleInner(Run(moves), m.cmd, m.env).outcome.Done?
  {
    hide Acked, Run, HandleInner;
    CommandTells(moves, m);
  }

  /** After every serial run, a lifecycle command is acknowledged as done exactly
      when it is a create with a spec or the container it names, or else the one
      that backs its server, exists by the commands before; and only actions that
      read something answer with data. */
  lemma AckedInEveryRun(moves: seq<Move>, cmd: Command, env: Env)
    ensures var ack := AckFor(cmd, HandleInner(Run(moves), cmd, env).outcome);
            && (IsLifecycle(cmd.action) ==> (ack.ok <==> Acked(moves, Cmd(cmd, env))))
            && (!cmd.action.Other? ==> ack.result.None?)
  {
    hide Acked, Run;
    AckedIsDone(moves, Cmd(cmd, env));
  }

  // ---- Consoles ----

  /** Every live console belongs to a tracked server and is attached to the
      container that backs it. */
  ghost predicate ConsolesCurrent(w: World) {
    forall s :: s in w.consoles ==> s in w.tracked && w.consoles[s] == w.tracked[s]
  }

  /** What takes a server's container away from under its console: creating the
      server anew, or starting it on another container named explicitly. The
      start after that finds a console and attaches none. */
  predicate Strands(w: World, cmd: Command) {
    && cmd.serverId in w.consoles
    && (|| (cmd.action.Create? && cmd.spec.Some?)
        || (cmd.action.Start? && cmd.containerId.Some? && cmd.containerId.value in w.containers
            && cmd.containerId.value != w.consoles[cmd.serverId]))
  }

  ghost predicate Attached(w: World, server: string) {
    Get(w.consoles, server).Some? ==> Get(w.tracked, server) == Get(w.consoles, server)
  }

  lemma AttachedExactly(w: World, m: Move, server: string)
    requires m.Cmd? && Attached(w, server)
    requires m.cmd.action.Create? ==> Get(w.consoles, server) != Some(m.env.newId)
    ensures Attached(Apply(w, m), server) <==> !(server == m.cmd.serverId && Strands(w, m.cmd))
  {
    hide Apply, HandleInner, Acts;
    ActsExactly(w, m);
    HandleTracks(w, m, server);
    HandleAttaches(w, m, server);
  }

  lemma CurrentIsAttached(w: World)
    ensures ConsolesCurrent(w) <==> forall s :: Attached(w, s)
  {
    forall s
      ensures Attached(w, s) <==> (s in w.consoles ==> s in w.tracked && w.consoles[s] == w.tracked[s])
    {
    }
  }

  /** Exactly those commands leave a console behind. */
  lemma ConsolesCurrentExactly(w: World, cmd: Command, env: Env)
    requires ConsolesCurrent(w)
    requires cmd.action.Create? ==> env.newId !in w.consoles.Values
    ensures ConsolesCurrent(HandleInner(w, cmd, env).world) <==> !Strands(w, cmd)
  {
    var m := Cmd(cmd, env);
    assert Apply(w, m) == HandleInner(w, cmd, env).world;
    CurrentIsAttached(w);
    CurrentIsAttached(Apply(w, m));
    hide HandleInner, Apply, Attached, ConsolesCurrent, Strands;
    forall s
      ensures Attached(Apply(w, m), s) <==> !(s == cmd.serverId && Strands(w, cmd))
    {
      AttachedExactly(w, m, s);
    }
  }

  ghost predicate Unstranding(moves: seq<Move>) {
    moves == [] ||
    var front, m := moves[..|moves| - 1], moves[|moves| - 1];
    Unstranding(front) && (m.Cmd? ==> !Strands(Run(front), m.cmd))
  }

  /** The identifiers drawn for new containers. */
  function Drawn(moves: seq<Move>): set<string> {
    if moves == [] then {}
    else
      var front, m := moves[..|moves| - 1], moves[|moves| - 1];
      Drawn(front) + if m.Cmd? && m.cmd.action.Create? then {m.env.newId} else {}
  }

  /** None is drawn twice. */
  ghost predicate FreshIds(moves: seq<Move>) {
    moves == [] ||
    var front, m := moves[..|moves| - 1], moves[|moves| - 1];
    FreshIds(front) && (m.Cmd? && m.cmd.action.Create? ==> m.env.newId !in Drawn(front))
  }

  ghost predicate Among(ids: set<string>, id: Option<string>) {
    id.Some? ==> id.value in ids
  }

  lemma {:induction false} OnlyDrawn(moves: seq<Move>, server: string, id: string)
    ensures Among(Drawn(moves), Get(Run(moves).tracked, server))
    ensures Among(Drawn(moves), Get(Run(moves).consoles, server))
    ensures id in Run(moves).containers ==> id in Drawn(moves)
  {
    if moves != [] {
      var front, m := moves[..|moves| - 1], moves[|moves| - 1];
      OnlyDrawn(front, server, id);
      hide HandleInner, Acts;
      if m.Cmd? {
        var target := TargetOf(Run(front), m.cmd, m.env);
        OnlyDrawn(front, server, if target.Some? then target.value else "");
        ActsExactly(Run(front), m);
        HandleTracks(Run(front), m, server);
        HandleAttaches(Run(front), m, server);
        HandleSwitches(Run(front), m, id);
      }
    }
  }

  lemma {:induction false} FreshIdsAreFresh(moves: seq<Move>)
    requires FreshIds(moves)
    ensures FreshRun(moves)
  {
    if moves != [] {
      var front, m := moves[..|moves| - 1], moves[|moves| - 1];
      FreshIdsAreFresh(front);
      if m.Cmd? {
        OnlyDrawn(front, "", m.env.newId);
      }
    }
  }

  lemma NewIdHasNoConsole(moves: seq<Move>, id: string)
    requires id !in Drawn(moves)
    ensures id !in Run(moves).consoles.Values
  {
    hide Drawn, Run;
    var w := Run(moves);
    if id in w.consoles.Values {
      var s :| s in w.consoles && w.consoles[s] == id;
      OnlyDrawn(moves, s, id);
    }
  }

  /** The consoles are current all through a serial run exactly when no command
      of it strands one when it comes. */
  lemma {:induction false} ConsolesStayCurrentExactly(moves: seq<Move>)
    requires FreshIds(moves)
    ensures (forall n :: 0 <= n <= |moves| ==> ConsolesCurrent(Run(moves[..n]))) <==> Unstranding(moves)
  {
    if moves == [] {
      assert forall n :: 0 <= n <= |moves| ==> moves[..n] == [];
    } else {
      var front, m := moves[..|moves| - 1], moves[|moves| - 1];
      ConsolesStayCurrentExactly(front);
      PrefixesOf(moves);
      hide HandleInner, Strands, Drawn;
      if m.Cmd? && ConsolesCurrent(Run(front)) {
        if m.cmd.action.Create? {
          NewIdHasNoConsole(front, m.env.newId);
        }
        ConsolesCurrentExactly(Run(front), m.cmd, m.env);
      }
    }
  }

  lemma RunSnoc(moves: seq<Move>, m: Move)
    ensures Run(moves + [m]) == Apply(Run(moves), m)
    ensures Drawn(moves + [m]) == Drawn(moves) + if m.Cmd? && m.cmd.action.Create? then {m.env.newId} else {}
    ensures FreshIds(moves + [m]) <==>
            FreshIds(moves) && (m.Cmd? && m.cmd.action.Create? ==> m.env.newId !in Drawn(moves))
  {
    assert (moves + [m])[..|moves + [m]| - 1] == moves;
  }

  function Order(action: Action, server: string, spec: Spec, newId: string): Move {
    Cmd(Command("1", action, server, None, Some(spec), None, None), Env(newId, true, None, None, Done(None), []))
  }

  /** Create, start, create: the daemon tracks the second container while the
      console stays on the first. */
  lemma ConsoleLeftBehind(server: string, spec: Spec)
    ensures var create, start := Order(Create, server, spec, "a"), Order(Start, server, spec, "b");
            var moves := [create, start, Order(Create, server, spec, "b")];
            FreshIds(moves) && Run(moves).tracked == map[server := "b"] && Run(moves).consoles == map[server := "a"]
  {
    var create, start := Order(Create, server, spec, "a"), Order(Start, server, spec, "b");
    var again := Order(Create, server, spec, "b");
    RunSnoc([], create);
    RunSnoc([create], start);
    RunSnoc([create, start], again);
    assert [] + [create] == [create] && [create] + [start] == [create, start];
    assert [create, start] + [again] == [create, start, again];
    assert Drawn([]) == {} && FreshIds([]);
    hide Run, FreshIds, Drawn;
    assert Run([create]) == World(map["a" := Container(false, spec.labels)], map[server := "a"], map[], []);
    assert Run([create, start]).containers == map["a" := Container(true, spec.labels)];
    assert Run([create, start]).tracked == map[server := "a"] && Run([create, start]).consoles == map[server := "a"];
    assert Run([create, start, again]).tracked == map[server := "b"];
  }

  // ---- The object ----

  datatype Beat = Beat(serverId: string, running: bool, stats: Stats)

  const NO_STATS := Stats(0.0, 0, 0, 0, 0)

  /** The beat of a container: what the in-memory runtime measures for one that
      runs, and nothing for one that does not. */
  ghost function BeatFor(server: string, c: Container): Beat {
    if c.running then Beat(server, true, Stats(12.5, 134_217_728, 536_870_912, 1024, 2048))
    else Beat(server, false, Stats(0.0, 0, 0, 0, 0))
  }

  /** One beat for every tracked server whose container answers, and no other. */
  ghost predicate Reports(w: World, beats: seq<Beat>) {
    && (forall i, j :: 0 <= i < j < |beats| ==> beats[i].serverId != beats[j].serverId)
    && (forall i :: 0 <= i < |beats| ==>
          && beats[i].serverId in w.tracked
          && w.tracked[beats[i].serverId] in w.containers
          && beats[i] == BeatFor(beats[i].serverId, w.containers[w.tracked[beats[i].serverId]]))
    && (forall s :: s in w.tracked && w.tracked[s] in w.containers ==> Reported(beats, s))
  }

  ghost predicate Reported(beats: seq<Beat>, server: string) {
    exists i :: 0 <= i < |beats| && beats[i].serverId == server
  }

  /** After every serial run the reference covers, a heartbeat reports a server
      exactly when its last successful lifecycle command was not a removal, once,
      and as running exactly when it was a start. */
  lemma HeartbeatExactly(moves: seq<Move>, beats: seq<Beat>)
    requires FreshRun(moves) && Conforming(moves) && Reports(Run(moves), beats)
    ensures forall i, j :: 0 <= i < j < |beats| ==> beats[i].serverId != beats[j].serverId
    ensures forall s :: Reported(beats, s) <==> LastDone(moves, s).Some? && !LastDone(moves, s).value.Remove?
    ensures forall i :: 0 <= i < |beats| ==> (beats[i].running <==> LastDone(moves, beats[i].serverId) == Some(Start))
  {
    RunRefines(moves);
    hide Run, LastDone, Conforming, FreshRun;
    var w := Run(moves);
    forall s
      ensures Reported(beats, s) <==> LastDone(moves, s).Some? && !LastDone(moves, s).value.Remove?
    {
      TrackedExactly(moves, s);
    }
    forall i | 0 <= i < |beats|
      ensures beats[i].running <==> LastDone(moves, beats[i].serverId) == Some(Start)
    {
      TrackedExactly(moves, beats[i].serverId);
    }
  }

  /** The same for every serial run whatsoever: a server is reported exactly when
      it has a backing container that still exists, once, and as running exactly
      when the last command about that container, for any server, was a start. */
  lemma HeartbeatInEveryRun(moves: seq<Move>, beats: seq<Beat>)
    requires Reports(Run(moves), beats)
    ensures forall s :: Reported(beats, s) <==>
              Backing(moves, s).Some? && Switch(moves, Backing(moves, s).value).Some?
    ensures forall i :: 0 <= i < |beats| ==>
              var id := Backing(moves, beats[i].serverId);
              id.Some? && Switch(moves, id.value) == Some(beats[i].running)
  {
    hide Run, Backing, Switch;
    var w := Run(moves);
    forall s
      ensures Get(w.tracked, s) == Backing(moves, s)
      ensures s in w.tracked ==> Switched(w, w.tracked[s], Switch(moves, w.tracked[s]))
    {
      RunTells(moves, s, if s in w.tracked then w.tracked[s] else "");
    }
    assert forall s :: s in w.tracked <==> Get(w.tracked, s).Some?;
  }

  /** The beats while the servers in `left` are still to be asked. */
  ghost predicate Reporting(w: World, beats: seq<Beat>, left: set<string>) {
    && (forall i, j :: 0 <= i < j < |beats| ==> beats[i].serverId != beats[j].serverId)
    && (forall i :: 0 <= i < |beats| ==>
          && beats[i].serverId in w.tracked && beats[i].serverId !in left
          && w.tracked[beats[i].serverId] in w.containers
          && beats[i] == BeatFor(beats[i].serverId, w.containers[w.tracked[beats[i].serverId]]))
    && (forall s :: s in w.tracked && s !in left && w.tracked[s] in w.containers ==> Reported(beats, s))
  }

  lemma NothingReported(w: World)
    ensures Reporting(w, [], w.tracked.Keys)
  {
  }

  lemma BeatReported(w: World, beats: seq<Beat>, left: set<string>, server: string)
    requires Reporting(w, beats, left) && server in left && server in w.tracked && w.tracked[server] in w.containers
    ensures Reporting(w, beats + [BeatFor(server, w.containers[w.tracked[server]])], left - {server})
  {
    var beat := BeatFor(server, w.containers[w.tracked[server]]);
    assert beat.serverId == server;
    hide BeatFor;
    var more := beats + [beat];
    assert more[|beats|].serverId == server;
    assert forall i :: 0 <= i < |beats| ==> more[i] == beats[i];
    forall s | s in w.tracked && s !in left - {server} && w.tracked[s] in w.containers
      ensures Reported(more, s)
    {
      if s != server {
        var i :| 0 <= i < |beats| && beats[i].serverId == s;
        assert more[i].serverId == s;
      }
    }
  }

  lemma NoBeat(w: World, beats: seq<Beat>, left: set<string>, server: string)
    requires Reporting(w, beats, left) && server in w.tracked && w.tracked[server] !in w.containers
    ensures Reporting(w, beats, left - {server})
  {
    hide BeatFor, Reported;
  }

  lemma AllReported(w: World, beats: seq<Beat>)
    requires Reporting(w, beats, {})
    ensures Reports(w, beats)
  {
    hide BeatFor, Reported;
  }

  class Dispatcher {
    const rt: Runtime
    var tracked: map<string, string>
    var consoles: map<string, string>
    var events: seq<Event>

    ghost function View(): World
      reads this, rt
    {
      World(rt.containers, tracked, consoles, events)
    }

    constructor (rt: Runtime)
      ensures this.rt == rt && tracked == map[] && consoles == map[] && events == []
    {
      this.rt := rt;
      tracked, consoles, events := map[], map[], [];
    }

    /** Rebuilds tracking after a restart; `None` is a runtime that would not
        list its containers. */
    method Reconcile(found: Option<seq<ManagedContainer>>)
      modifies this`tracked
      ensures tracked == if found.Some? then Reconciled(old(tracked), found.value) else old(tracked)
    {
      if found.None? {
        return;
      }
      var i := 0;
      while i < |found.value|
        invariant 0 <= i <= |found.value|
        invariant tracked == Reconciled(old(tracked), found.value[..i])
      {
        var mc := found.value[i];
        assert found.value[..i + 1][..i] == found.value[..i];
        if mc.serverId !in tracked {
          tracked := tracked[mc.serverId := mc.containerId];
        }
        i := i + 1;
      }
      assert found.value[..i] == found.value;
    }

    method Emit(event: Event)
      modifies this
      ensures View() == Emitted(old(View()), event)
    {
      events := events + [event];
    }

    /** Attaches once; a console that is already there is left alone, and an
        attach that fails is swallowed. */
    method StartConsoleStream(server: string, id: string, attaches: bool)
      requires id in rt.containers
      modifies this`consoles
      ensures consoles == if server in old(consoles) || !attaches then old(consoles) else old(consoles)[server := id]
    {
      if server in consoles {
        return;
      }
      if !attaches {
        return;
      }
      consoles := consoles[server := id];
    }

    /** The stream task's last act. */
    method ConsoleEnded(server: string)
      modifies this`consoles
      ensures consoles == old(consoles) - {server}
    {
      consoles := consoles - {server};
    }

    method HandleStart(server: string, id: string, attaches: bool) returns (r: Outcome)
      modifies this, rt
      ensures id in old(rt.containers) ==> r == Done(None) && View() == StartOn(old(View()), server, id, attaches)
      ensures id !in old(rt.containers) ==> r == Failed(NotFound(id)) && View() == old(View())
    {
      r := rt.SetRunning(id, true);
      if r.Failed? {
        return;
      }
      tracked := tracked[server := id];
      Emit(Event(server, StateChanged, "running"));
      StartConsoleStream(server, id, attaches);
    }

    method HandleStop(server: string, id: string) returns (r: Outcome)
      modifies this, rt
      ensures id in old(rt.containers) ==> r == Done(None) && View() == StopOn(old(View()), server, id)
      ensures id !in old(rt.containers) ==> r == Failed(NotFound(id)) && View() == old(View())
    {
      r := rt.SetRunning(id, false);
      if r.Done? {
        Emit(Event(server, StateChanged, "offline"));
      }
    }

    method HandleRemove(server: string, id: string) returns (r: Outcome)
      modifies this, rt
      ensures id in old(rt.containers) ==> r == Done(None) && View() == RemoveOn(old(View()), server, id)
      ensures id !in old(rt.containers) ==> r == Failed(NotFound(id)) && View() == old(View())
    {
      r := rt.Remove(id);
      if r.Done? {
        tracked := tracked - {server};
        consoles := consoles - {server};
      }
    }

    method Lifecycle(cmd: Command, attaches: bool) returns (r: Outcome)
      requires cmd.action.Start? || cmd.action.Stop? || cmd.action.Kill? || cmd.action.Remove?
      modifies this, rt
      ensures Result(View(), r) == OnContainer(old(View()), cmd, attaches)
    {
      var id: string;
      if cmd.containerId.Some? {
        id := cmd.containerId.value;
      } else if cmd.serverId in tracked {
        id := tracked[cmd.serverId];
      } else {
        return Failed(NoContainer(cmd));
      }
      if cmd.action.Start? {
        r := HandleStart(cmd.serverId, id, attaches);
      } else if cmd.action.Remove? {
        r := HandleRemove(cmd.serverId, id);
      } else {
        r := HandleStop(cmd.serverId, id);
      }
    }

    /** Executes one command; whatever happens there is an ack to send. */
    method Handle(cmd: Command, env: Env) returns (ack: Ack)
      modifies this, rt
      ensures View() == HandleInner(old(View()), cmd, env).world
      ensures ack == AckFor(cmd, HandleInner(old(View()), cmd, env).outcome)
    {
      hide OnContainer, AckFor;
      var r: Outcome;
      match cmd.action {
        case Create =>
          if cmd.spec.None? {
            r := Failed("create command missing spec");
          } else {
            rt.Create(cmd.spec.value, env.newId);
            tracked := tracked[cmd.serverId := env.newId];
            r := Done(None);
          }
        case PullImage =>
          if cmd.image.None? {
            r := Failed("pull_image command missing image");
          } else {
            Emit(Event(cmd.serverId, ConsoleLine, "[sky] pulling image " + cmd.image.value + "\U{2026}"));
            r := Attempted(env.pull);
            if r.Done? {
              Emit(Event(cmd.serverId, ConsoleLine, "[sky] image ready"));
            }
          }
        case ConsoleInput =>
          if cmd.input.None? {
            r := Failed("console_input command missing input");
          } else if cmd.serverId !in consoles {
            r := Failed("no active console session for server " + cmd.serverId);
          } else {
            r := Attempted(env.write);
          }
        case Other =>
          events := events + env.otherEvents;
          r := env.other;
        case _ =>
          r := Lifecycle(cmd, env.attaches);
      }
      ack := AckFor(cmd, r);
    }

    /** Reports every tracked container that still answers, in no particular
        order: one beat each, none twice, none for anything else. */
    method Heartbeat() returns (beats: seq<Beat>)
      ensures Reports(View(), beats)
    {
      var left := tracked.Keys;
      beats := [];
      NothingReported(View());
      hide Reporting, Reports;
      while left != {}
        invariant left <= tracked.Keys && Reporting(View(), beats, left)
        decreases left
      {
        var server :| server in left;
        var id := tracked[server];
        var running := rt.Inspect(id);
        if running.Some? {
          var beat := Beat(server, running.value, NO_STATS);
          if running.value {
            var stats := rt.ReadStats(id);
            if stats.Some? {
              beat := beat.(stats := stats.value);
            }
          }
          BeatReported(View(), beats, left, server);
          beats := beats + [beat];
        } else {
          NoBeat(View(), beats, left, server);
        }
        left := left - {server};
      }
      AllReported(View(), beats);
    }
  }
}
