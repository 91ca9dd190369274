/** What a restart recovers: the tracking map is rebuilt from the labels of the
containers the runtime still has, listed in any order. */
module Recovery {
  import opened Basics
  import opened Protocol
  import opened FakeRuntime
  import opened Managed
  import opened Dispatcher

  predicate HasLabel(c: Container) {
    SERVER_ID_LABEL in c.labels
  }

  /** A listing of the labelled containers, each once, in some order. */
  ghost predicate Lists(cs: Containers, found: seq<ManagedContainer>) {
    && (forall i :: 0 <= i < |found| ==> ListsOne(cs, found[i]))
    && (forall i, j :: 0 <= i < j < |found| ==> found[i].containerId != found[j].containerId)
    && (forall id :: id in cs && HasLabel(cs[id]) ==> Entry(cs, id) in found)
  }

  ghost predicate ListsOne(cs: Containers, mc: ManagedContainer) {
    mc.containerId in cs && HasLabel(cs[mc.containerId]) && mc == Entry(cs, mc.containerId)
  }

  function Entry(cs: Containers, id: string): ManagedContainer
    requires id in cs && HasLabel(cs[id])
  {
    ManagedContainer(cs[id].labels[SERVER_ID_LABEL], id)
  }

  predicate IsLabelled(cs: Containers, id: string, server: string) {
    id in cs && HasLabel(cs[id]) && cs[id].labels[SERVER_ID_LABEL] == server
  }

  /** The labels say what the daemon tracks: every tracked container carries its
      server's label and every labelled container is the tracked one. */
  ghost predicate LabelsTell(w: World) {
    && (forall s :: s in w.tracked ==> IsLabelled(w.containers, w.tracked[s], s))
    && (forall id :: id in w.containers && HasLabel(w.containers[id]) ==>
          var s := w.containers[id].labels[SERVER_ID_LABEL]; s in w.tracked && w.tracked[s] == id)
  }

  lemma {:induction false} FirstFoundIsListed(found: seq<ManagedContainer>, server: string)
    ensures match FirstFound(found, server)
            case Some(id) => ManagedContainer(server, id) in found
            case None => forall i :: 0 <= i < |found| ==> found[i].serverId != server
  {
    if found != [] && found[0].serverId != server {
      FirstFoundIsListed(found[1..], server);
      assert forall i :: 0 < i < |found| ==> found[i] == found[1..][i - 1];
    }
  }

  lemma LabelsRecover(w: World, found: seq<ManagedContainer>)
    requires LabelsTell(w) && Lists(w.containers, found)
    ensures Reconciled(map[], found) == w.tracked
  {
    hide FirstFound, Reconciled;
    var r := Reconciled(map[], found);
    forall s
      ensures Get(r, s) == Get(w.tracked, s)
    {
      ReconciledExactly(map[], found, s);
      FirstFoundIsListed(found, s);
      if s in w.tracked {
        assert Entry(w.containers, w.tracked[s]) in found;
      }
    }
    assert forall s :: s in r <==> Get(r, s).Some?;
    assert forall s :: s in w.tracked <==> Get(w.tracked, s).Some?;
    assert forall s :: s in r ==> Get(r, s).value == r[s];
  }

  /** Every set of containers can be listed. */
  lemma {:induction false} ListingOf(cs: Containers, ids: set<string>) returns (found: seq<ManagedContainer>)
    requires forall id :: id in ids ==> id in cs && HasLabel(cs[id])
    ensures forall i :: 0 <= i < |found| ==> found[i].containerId in ids && ListsOne(cs, found[i])
    ensures forall i, j :: 0 <= i < j < |found| ==> found[i].containerId != found[j].containerId
    ensures forall id :: id in ids ==> Entry(cs, id) in found
    decreases ids
  {
    if ids == {} {
      found := [];
    } else {
      var id :| id in ids;
      found := ListingOf(cs, ids - {id});
      found := found + [Entry(cs, id)];
    }
  }

  function Labelled(cs: Containers): set<string> {
    set id | id in cs && HasLabel(cs[id])
  }

  /** ... and with any labelled container first. */
  lemma ListingFrom(cs: Containers, id: string) returns (found: seq<ManagedContainer>)
    requires id in cs && HasLabel(cs[id])
    ensures Lists(cs, found) && found != [] && found[0] == Entry(cs, id)
  {
    var rest := ListingOf(cs, Labelled(cs) - {id});
    found := [Entry(cs, id)] + rest;
    assert forall i :: 0 < i < |found| ==> found[i] == rest[i - 1];
    forall x | x in cs && HasLabel(cs[x])
      ensures Entry(cs, x) in found
    {
      if x != id {
        assert Entry(cs, x) in rest;
      }
    }
  }

  lemma RecoveredByLabel(w: World, found: seq<ManagedContainer>)
    requires Lists(w.containers, found) && Reconciled(map[], found) == w.tracked
    ensures forall s :: s in w.tracked ==> IsLabelled(w.containers, w.tracked[s], s)
  {
    hide Reconciled, FirstFound;
    forall s | s in w.tracked
      ensures ManagedContainer(s, w.tracked[s]) in found
    {
      ReconciledExactly(map[], found, s);
      FirstFoundIsListed(found, s);
    }
  }

  /** A restart recovers the tracking map, whatever order the runtime lists its
      containers in, exactly when the labels tell what was tracked. A server
      created again without a removal leaves two containers with its label, and
      then the order decides. */
  lemma RestartRecoversExactly(w: World)
    ensures (forall found :: Lists(w.containers, found) ==> Reconciled(map[], found) == w.tracked) <==> LabelsTell(w)
  {
    if LabelsTell(w) {
      forall found | Lists(w.containers, found)
        ensures Reconciled(map[], found) == w.tracked
      {
        LabelsRecover(w, found);
      }
    }
    if forall found :: Lists(w.containers, found) ==> Reconciled(map[], found) == w.tracked {
      var any := ListingOf(w.containers, Labelled(w.containers));
      assert Lists(w.containers, any);
      RecoveredByLabel(w, any);
      forall id | id in w.containers && HasLabel(w.containers[id])
        ensures var s := w.containers[id].labels[SERVER_ID_LABEL]; s in w.tracked && w.tracked[s] == id
      {
        var found := ListingFrom(w.containers, id);
        ReconciledExactly(map[], found, found[0].serverId);
      }
    }
  }

  /** A spec that carries the server's label. */
  predicate Names(spec: Spec, server: string) {
    SERVER_ID_LABEL in spec.labels && spec.labels[SERVER_ID_LABEL] == server
  }

  lemma CreateLabelsExactly(w: World, server: string, id: string, spec: Spec)
    requires LabelsTell(w) && id !in w.containers
    ensures LabelsTell(w.(containers := Created(w.containers, id, spec), tracked := w.tracked[server := id])) <==>
            server !in w.tracked && Names(spec, server)
  {
    var cs, tracked := Created(w.containers, id, spec), w.tracked[server := id];
    assert cs[id].labels == spec.labels && tracked[server] == id;
    if server in w.tracked {
      var before := w.tracked[server];
      assert before != id && cs[before] == w.containers[before] && IsLabelled(cs, before, server);
    }
  }

  lemma StartLabelsExactly(w: World, server: string, id: string)
    requires LabelsTell(w) && id in w.containers
    ensures LabelsTell(w.(containers := WithRunning(w.containers, id, true), tracked := w.tracked[server := id])) <==>
            Get(w.tracked, server) == Some(id)
  {
    var cs, tracked := WithRunning(w.containers, id, true), w.tracked[server := id];
    assert forall x :: x in cs <==> x in w.containers;
    assert forall x :: x in cs ==> cs[x].labels == w.containers[x].labels;
    hide WithRunning;
    if server in w.tracked && w.tracked[server] == id {
      assert tracked == w.tracked;
    } else {
      assert tracked[server] == id;
    }
  }

  lemma RunningKeepsLabels(w: World, id: string, running: bool)
    requires LabelsTell(w) && id in w.containers
    ensures LabelsTell(w.(containers := WithRunning(w.containers, id, running)))
  {
  }

  lemma RemoveLabelsExactly(w: World, server: string, id: string)
    requires LabelsTell(w) && id in w.containers
    ensures LabelsTell(w.(containers := w.containers - {id}, tracked := w.tracked - {server})) <==>
            Get(w.tracked, server) == Some(id) || (server !in w.tracked && !HasLabel(w.containers[id]))
  {
    var cs, tracked := w.containers - {id}, w.tracked - {server};
    if server in w.tracked && w.tracked[server] != id {
      var own := w.tracked[server];
      assert own in cs && IsLabelled(cs, own, server) && server !in tracked;
    } else if server !in w.tracked && HasLabel(w.containers[id]) {
      var t := w.containers[id].labels[SERVER_ID_LABEL];
      assert t in tracked && tracked[t] == id && id !in cs;
    }
  }

  lemma LabelsSame(w: World, w': World)
    requires w.containers == w'.containers && w.tracked == w'.tracked
    ensures LabelsTell(w') <==> LabelsTell(w)
  {
  }

  /** A create of a server not tracked that labels it; a start of a server on its
      own container; a removal of a server with its own container, or of an
      unlabelled one under the name of no server; and everything that does
      nothing to containers or tracking. */
  predicate KeepsLabels(w: World, cmd: Command) {
    var target, own := ContainerFor(w, cmd), Get(w.tracked, cmd.serverId);
    if cmd.action.Create? then cmd.spec.Some? ==> own.None? && Names(cmd.spec.value, cmd.serverId)
    else
      cmd.action.Start? || cmd.action.Remove? ==>
        || target.None? || target.value !in w.containers || target == own
        || (cmd.action.Remove? && own.None? && !HasLabel(w.containers[target.value]))
  }

  lemma TargetLabelsExactly(w: World, cmd: Command, env: Env, id: string)
    requires LabelsTell(w) && IsLifecycle(cmd.action) && !cmd.action.Create?
    requires ContainerFor(w, cmd) == Some(id) && id in w.containers
    ensures LabelsTell(HandleInner(w, cmd, env).world) <==> KeepsLabels(w, cmd)
  {
    hide HandleInner, LabelsTell, WithRunning, HasLabel;
    var w', s := HandleInner(w, cmd, env).world, cmd.serverId;
    TargetActs(w, cmd, env, id);
    if cmd.action.Start? {
      StartLabelsExactly(w, s, id);
    } else if cmd.action.Remove? {
      RemoveLabelsExactly(w, s, id);
    } else {
      RunningKeepsLabels(w, id, false);
    }
    LabelsSame(w.(containers := w'.containers, tracked := w'.tracked), w');
  }

  /** Exactly which commands keep the labels telling. */
  lemma LabelsKeptExactly(w: World, cmd: Command, env: Env)
    requires LabelsTell(w) && FreshId(w, cmd, env)
    ensures LabelsTell(HandleInner(w, cmd, env).world) <==> KeepsLabels(w, cmd)
  {
    hide LabelsTell, Created, HasLabel, Names, Pulling;
    var target, w' := ContainerFor(w, cmd), HandleInner(w, cmd, env).world;
    if cmd.action.Create? && cmd.spec.Some? {
      CreateLabelsExactly(w, cmd.serverId, env.newId, cmd.spec.value);
    } else if IsLifecycle(cmd.action) && !cmd.action.Create? && target.Some? && target.value in w.containers {
      hide HandleInner;
      TargetLabelsExactly(w, cmd, env, target.value);
    } else {
      LabelsSame(w, w');
    }
  }

  /** Every command of the panel is such a command when it comes. */
  ghost predicate Disciplined(moves: seq<Move>) {
    moves == [] ||
    var front, m := moves[..|moves| - 1], moves[|moves| - 1];
    Disciplined(front) && (m.Cmd? ==> KeepsLabels(Run(front), m.cmd))
  }

  lemma {:induction false} LabelsStayTellingExactly(moves: seq<Move>)
    requires FreshRun(moves)
    ensures (forall n :: 0 <= n <= |moves| ==> LabelsTell(Run(moves[..n]))) <==> Disciplined(moves)
  {
    if moves == [] {
      assert forall n :: 0 <= n <= |moves| ==> moves[..n] == [];
    } else {
      var front, m := moves[..|moves| - 1], moves[|moves| - 1];
      LabelsStayTellingExactly(front);
      PrefixesOf(moves);
      hide HandleInner, KeepsLabels;
      if m.Cmd? && LabelsTell(Run(front)) {
        LabelsKeptExactly(Run(front), m.cmd, m.env);
      } else if !m.Cmd? {
        LabelsSame(Run(front), Run(moves));
      }
    }
  }

  /** A restart recovers the tracking map from every listing. */
  ghost predicate Recovers(w: World) {
    forall found :: Lists(w.containers, found) ==> Reconciled(map[], found) == w.tracked
  }

  /** At whatever point of a serial run the daemon is restarted, it recovers what
      it tracked, whatever the order of the listing, exactly when the panel is
      disciplined. */
  lemma RunRecoversExactly(moves: seq<Move>)
    requires FreshRun(moves)
    ensures (forall n :: 0 <= n <= |moves| ==> Recovers(Run(moves[..n]))) <==> Disciplined(moves)
  {
    LabelsStayTellingExactly(moves);
    hide Run, Disciplined, LabelsTell, Lists, Reconciled, FreshRun;
    forall n | 0 <= n <= |moves|
      ensures Recovers(Run(moves[..n])) <==> LabelsTell(Run(moves[..n]))
    {
      RestartRecoversExactly(Run(moves[..n]));
    }
  }

  /** Without that discipline it may not: a server created twice is recovered as
      whichever container is listed first. */
  lemma RecreatedServerMayBeLost(server: string, spec: Spec)
    requires SERVER_ID_LABEL in spec.labels && spec.labels[SERVER_ID_LABEL] == server
    ensures var moves := [Order(Create, server, spec, "a"), Order(Create, server, spec, "b")];
            var found := [ManagedContainer(server, "a"), ManagedContainer(server, "b")];
            && FreshIds(moves) && Lists(Run(moves).containers, found)
            && Run(moves).tracked == map[server := "b"] && Reconciled(map[], found) == map[server := "a"]
  {
    var first, second := Order(Create, server, spec, "a"), Order(Create, server, spec, "b");
    RunSnoc([], first);
    RunSnoc([first], second);
    assert [] + [first] == [first] && [first] + [second] == [first, second];
    assert Drawn([]) == {} && FreshIds([]);
    hide Run, FreshIds, Drawn;
    var c := Container(false, spec.labels);
    assert Run([first]) == World(map["a" := c], map[server := "a"], map[], []);
    assert Run([first, second]) == World(map["a" := c, "b" := c], map[server := "b"], map[], []);
    var x, y := ManagedContainer(server, "a"), ManagedContainer(server, "b");
    assert [x, y][..1] == [x] && [x][..0] == [];
    assert Reconciled(map[], [x]) == map[server := "a"];
    var cs, found := Run([first, second]).containers, [x, y];
    assert Entry(cs, "a") == found[0] && Entry(cs, "b") == found[1];
    assert forall id :: id in cs ==> id == "a" || id == "b";
    assert Lists(cs, found);
  }
}
