/** The payloads exchanged with the panel, as far as the daemon's control logic
looks at them. */
module Protocol {
  import opened Basics

  datatype Spec = Spec(name: string, image: string, labels: map<string, string>)

  /** The actions that touch containers or consoles; file, backup and database
      actions are `Other`. */
  datatype Action = Create | Start | Stop | Kill | Remove | PullImage | ConsoleInput | Other

  datatype Command = Command(
    commandId: string,
    action: Action,
    serverId: string,
    containerId: Option<string>,
    spec: Option<Spec>,
    image: Option<string>,
    input: Option<string>)

  /** `result` is the data a reading action answers with, as the text of its JSON. */
  datatype Ack = Ack(commandId: string, ok: bool, error: Option<string>, result: Option<string>)

  datatype EventKind = ConsoleLine | StateChanged | BackupDone | BackupFailed

  datatype Event = Event(serverId: string, kind: EventKind, message: string)

  datatype Outcome = Done(result: Option<string>) | Failed(error: string)

  /** Every command is answered, a failure inside the answer. */
  function AckFor(cmd: Command, outcome: Outcome): Ack {
    match outcome
    case Done(result) => Ack(cmd.commandId, true, None, result)
    case Failed(error) => Ack(cmd.commandId, false, Some(error), None)
  }
}
