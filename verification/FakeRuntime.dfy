/** The in-memory container runtime the dispatcher is composed with. */
module FakeRuntime {
  import opened Basics
  import opened Protocol

  datatype Container = Container(running: bool, labels: map<string, string>)

  type Containers = map<string, Container>

  datatype Stats = Stats(cpuPercent: real, memUsed: nat, memLimit: nat, netRx: nat, netTx: nat)

  const FIXTURE := Stats(12.5, 128 * 1024 * 1024, 512 * 1024 * 1024, 1024, 2048)

  function NotFound(id: string): string {
    "fake runtime: container " + id + " not found"
  }

  function Created(cs: Containers, id: string, spec: Spec): Containers {
    cs[id := Container(false, spec.labels)]
  }

  function WithRunning(cs: Containers, id: string, running: bool): Containers
    requires id in cs
  {
    cs[id := cs[id].(running := running)]
  }

  class Runtime {
    var containers: Containers

    constructor ()
      ensures containers == map[]
    {
      containers := map[];
    }

    /** `id` is the random identifier drawn for the new container. */
    method Create(spec: Spec, id: string)
      modifies this
      ensures containers == Created(old(containers), id, spec)
    {
      containers := containers[id := Container(false, spec.labels)];
    }

    method SetRunning(id: string, running: bool) returns (r: Outcome)
      modifies this
      ensures id in old(containers) ==> r == Done(None) && containers == WithRunning(old(containers), id, running)
      ensures id !in old(containers) ==> r == Failed(NotFound(id)) && containers == old(containers)
    {
      if id !in containers {
        return Failed(NotFound(id));
      }
      containers := containers[id := containers[id].(running := running)];
      return Done(None);
    }

    method Remove(id: string) returns (r: Outcome)
      modifies this
      ensures id in old(containers) ==> r == Done(None) && containers == old(containers) - {id}
      ensures id !in old(containers) ==> r == Failed(NotFound(id)) && containers == old(containers)
    {
      if id !in containers {
        return Failed(NotFound(id));
      }
      containers := containers - {id};
      return Done(None);
    }

    method Inspect(id: string) returns (running: Option<bool>)
      ensures running == if id in containers then Some(containers[id].running) else None
    {
      return if id in containers then Some(containers[id].running) else None;
    }

    method ReadStats(id: string) returns (stats: Option<Stats>)
      ensures stats == if id in containers then Some(FIXTURE) else None
    {
      return if id in containers then Some(FIXTURE) else None;
    }
  }
}
