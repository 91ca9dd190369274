/** Provisioning against a Docker engine: creating a container through missing
images and taken names, and starting one through occupied ports.

The engine is modelled by its images and containers. Each request is answered
either as such an engine answers it or in any other way at all: carried out or
not, with a status out of nowhere or without an answer. */
module Docker {
  import opened Basics
  import opened Managed

  datatype Port = Port(number: nat, protocol: string)

  datatype Spec = Spec(name: string, image: string, labels: map<string, string>, hostPorts: seq<Port>)

  /** A port of a container, and the host port it is published on, if any. */
  datatype Published = Published(number: Option<nat>, protocol: string)

  /** `hostPorts` is what the container asks to publish, `published` what it
      holds at the moment. */
  datatype Container = Container(spec: Spec, state: string, published: seq<Published>)

  type Containers = map<string, Container>

  datatype Reply = NoAnswer | Answer(status: int, message: string)

  /** How a request is answered; an engine that finds both the image missing and
      the name taken may report either first. */
  datatype Mood =
    | Works(imageFirst: bool)
    | Unheard(imageFirst: bool)
    | Broken
    | Says(status: int, message: string)
    | Misreports(imageFirst: bool, status: int, message: string)

  /** The request is carried out, whatever is answered. */
  predicate Acts(mood: Mood) {
    mood.Works? || mood.Unheard? || mood.Misreports?
  }

  function Heard(mood: Mood, outcome: Reply): Reply {
    match mood
    case Works(_) => outcome
    case Says(status, message) => Answer(status, message)
    case Misreports(_, status, message) => Answer(status, message)
    case _ => NoAnswer
  }

  function Created(spec: Spec): Container {
    Container(spec, "created", [])
  }

  /** The containers that hold a name; an empty name is held by none. */
  function Holders(cs: Containers, name: string): set<string> {
    set id | id in cs && name != "" && cs[id].spec.name == name
  }

  function CreateOutcome(images: set<string>, cs: Containers, spec: Spec, imageFirst: bool): Reply {
    var missing, taken := spec.image !in images, Holders(cs, spec.name) != {};
    if missing && (imageFirst || !taken) then Answer(404, "No such image")
    else if taken then Answer(409, "Conflict")
    else Answer(201, "")
  }

  /** A container is addressed by its id or by its name. */
  function Addressed(cs: Containers, ref: string): set<string> {
    if ref in cs then {ref} else Holders(cs, ref)
  }

  function DeleteOutcome(cs: Containers, ref: string): Reply {
    if Addressed(cs, ref) == {} then Answer(404, "No such container") else Answer(204, "")
  }

  /** One of the published ports is wanted, number and protocol. */
  predicate Collides(published: seq<Published>, wanted: seq<Port>) {
    exists i :: 0 <= i < |published| && published[i].number.Some? &&
      Port(published[i].number.value, published[i].protocol) in wanted
  }

  predicate PortsTaken(cs: Containers, id: string)
    requires id in cs
  {
    exists other :: other in cs && other != id && Collides(cs[other].published, cs[id].spec.hostPorts)
  }

  /** The state reads "running" in any case. */
  predicate IsRunning(state: string) {
    |state| == 7 && forall i :: 0 <= i < 7 ==> Lower(state[i]) == "running"[i]
  }

  /** In letters. */
  ghost predicate ReadsRunning(state: string) {
    |state| == 7 && forall i :: 0 <= i < 7 ==> state[i] == "running"[i] || state[i] == "RUNNING"[i]
  }

  lemma IsRunningExactly(state: string)
    ensures IsRunning(state) <==> ReadsRunning(state)
  {
    if |state| == 7 {
      forall i | 0 <= i < 7
        ensures Lower(state[i]) == "running"[i] <==> state[i] == "running"[i] || state[i] == "RUNNING"[i]
      {
      }
    }
  }

  const PORT_TAKEN := "port is already allocated"
  const ADDRESS_TAKEN := "address already in use"

  function StartOutcome(cs: Containers, id: string): Reply {
    if id !in cs then Answer(404, "No such container")
    else if IsRunning(cs[id].state) then Answer(304, "")
    else if PortsTaken(cs, id) then Answer(500, PORT_TAKEN)
    else Answer(204, "")
  }

  function Ports(hostPorts: seq<Port>): seq<Published> {
    seq(|hostPorts|, i requires 0 <= i < |hostPorts| => Published(Some(hostPorts[i].number), hostPorts[i].protocol))
  }

  function Started(c: Container): Container {
    c.(state := "running", published := Ports(c.spec.hostPorts))
  }

  /** The numbers of ports, which is all the daemon reads of them. */
  function Numbers(published: seq<Published>): seq<Option<nat>> {
    seq(|published|, i requires 0 <= i < |published| => published[i].number)
  }

  function HostNumbers(hostPorts: seq<Port>): seq<nat> {
    seq(|hostPorts|, i requires 0 <= i < |hostPorts| => hostPorts[i].number)
  }

  function ItemOf(id: string, c: Container): Item {
    Item(id, ["/" + c.spec.name], c.spec.labels, c.state, Numbers(c.published))
  }

  /** A listing shows every container once, in any order. */
  ghost predicate Lists(cs: Containers, items: seq<Item>) {
    && (forall i :: 0 <= i < |items| ==> items[i].id in cs && items[i] == ItemOf(items[i].id, cs[items[i].id]))
    && (forall i, j :: 0 <= i < j < |items| ==> items[i].id != items[j].id)
    && (forall id :: id in cs ==> Listed(items, id))
  }

  ghost predicate Listed(items: seq<Item>, id: string) {
    exists i :: 0 <= i < |items| && items[i].id == id
  }

  /** What a POST to create a container answers and does. */
  ghost predicate Posted(images: set<string>, before: Containers, spec: Spec, newId: string, mood: Mood,
                         r: Reply, after: Containers) {
    if Acts(mood) then
      var outcome := CreateOutcome(images, before, spec, mood.imageFirst);
      && r == Heard(mood, outcome)
      && after == if outcome == Answer(201, "") then before[newId := Created(spec)] else before
    else r == Heard(mood, NoAnswer) && after == before
  }

  class Engine {
    var images: set<string>
    var containers: Containers
    var replies: seq<Reply>
    var pulls: nat
    var removals: nat

    method PostCreate(spec: Spec, newId: string, mood: Mood) returns (r: Reply)
      modifies this`containers, this`replies
      ensures replies == old(replies) + [r]
      ensures Posted(images, old(containers), spec, newId, mood, r, containers)
    {
      var outcome := NoAnswer;
      if Acts(mood) {
        outcome := CreateOutcome(images, containers, spec, mood.imageFirst);
        if outcome == Answer(201, "") {
          containers := containers[newId := Created(spec)];
        }
      }
      r := Heard(mood, outcome);
      replies := replies + [r];
    }

    /** The answer carries an error that occurred while pulling. */
    method Pull(image: string, mood: Mood) returns (r: Reply)
      modifies this`images, this`pulls
      ensures pulls == old(pulls) + 1 && r == Heard(mood, Answer(200, ""))
      ensures images == if Acts(mood) then old(images) + {image} else old(images)
    {
      pulls := pulls + 1;
      if Acts(mood) {
        images := images + {image};
      }
      r := Heard(mood, Answer(200, ""));
    }

    method Delete(ref: string, mood: Mood) returns (r: Reply)
      modifies this`containers, this`removals
      ensures removals == old(removals) + 1
      ensures r == Heard(mood, DeleteOutcome(old(containers), ref))
      ensures containers == if Acts(mood) then old(containers) - Addressed(old(containers), ref) else old(containers)
    {
      removals := removals + 1;
      r := Heard(mood, DeleteOutcome(containers, ref));
      if Acts(mood) {
        containers := containers - Addressed(containers, ref);
      }
    }

    method PostStart(id: string, mood: Mood) returns (r: Reply)
      modifies this`containers
      ensures r == Heard(mood, StartOutcome(old(containers), id))
      ensures containers == if Acts(mood) && StartOutcome(old(containers), id) == Answer(204, "")
                            then old(containers)[id := Started(old(containers)[id])] else old(containers)
    {
      var outcome := StartOutcome(containers, id);
      r := Heard(mood, outcome);
      if Acts(mood) && outcome == Answer(204, "") {
        containers := containers[id := Started(containers[id])];
      }
    }

    method List() returns (items: seq<Item>)
      ensures Lists(containers, items)
    {
      var left := containers.Keys;
      items := [];
      while left != {}
        invariant left <= containers.Keys
        invariant forall i :: 0 <= i < |items| ==>
                    && items[i].id in containers && items[i].id !in left
                    && items[i] == ItemOf(items[i].id, containers[items[i].id])
        invariant forall i, j :: 0 <= i < j < |items| ==> items[i].id != items[j].id
        invariant forall id :: id in containers && id !in left ==> Listed(items, id)
        decreases left
      {
        var id :| id in left;
        left := left - {id};
        ghost var before := items;
        items := items + [ItemOf(id, containers[id])];
        assert items[|before|].id == id;
        assert forall i :: 0 <= i < |before| ==> items[i] == before[i];
      }
    }
  }
}
