/** Writing to one console's stdin from many commands at once.

Each command takes the console's lock, writes its input, then a newline, and
lets go. A write may be accepted a few bytes at a time, and it may fail part
way. The steps of different commands interleave in any order. */
module ConsoleInput {
  import opened Basics

  /** The command at the lock and how much of its block it has written. */
  datatype Holder = Holder(task: nat, written: nat)

  /** A finished turn at the lock: how much of its block reached stdin, and
      whether it went through. */
  datatype Turn = Turn(task: nat, written: nat, ok: bool)

  datatype State = State(
    inputs: seq<Bytes>,
    waiting: set<nat>,
    holder: Option<Holder>,
    stdin: Bytes,
    // history
    turns: seq<Turn>)

  datatype Label = Acquire(task: nat) | Write(count: nat) | Fail | Release

  function Block(input: Bytes): Bytes {
    input + [LF]
  }

  function Tasks(n: nat): (r: set<nat>)
    ensures forall t :: t in r ==> t < n
  {
    if n == 0 then {} else Tasks(n - 1) + {n - 1}
  }

  function Init(inputs: seq<Bytes>): State {
    State(inputs, Tasks(|inputs|), None, [], [])
  }

  /** The block of a command; a command that is not there has none. */
  function BlockOf(inputs: seq<Bytes>, task: nat): Bytes {
    if task < |inputs| then Block(inputs[task]) else []
  }

  function Step(s: State, l: Label): State {
    match l
    case Acquire(task) =>
      if s.holder.None? && task in s.waiting then
        s.(waiting := s.waiting - {task}, holder := Some(Holder(task, 0)))
      else s
    case Write(count) =>
      if s.holder.Some? && s.holder.value.written + count <= |BlockOf(s.inputs, s.holder.value.task)| then
        var h := s.holder.value;
        s.(holder := Some(h.(written := h.written + count)),
           stdin := s.stdin + BlockOf(s.inputs, h.task)[h.written..h.written + count])
      else s
    case Fail =>
      if s.holder.Some? then
        s.(holder := None, turns := s.turns + [Turn(s.holder.value.task, s.holder.value.written, false)])
      else s
    case Release =>
      if s.holder.Some? && s.holder.value.written == |BlockOf(s.inputs, s.holder.value.task)| then
        s.(holder := None, turns := s.turns + [Turn(s.holder.value.task, s.holder.value.written, true)])
      else s
  }

  function Run(inputs: seq<Bytes>, labels: seq<Label>): State {
    if labels == [] then Init(inputs)
    else Step(Run(inputs, labels[..|labels| - 1]), labels[|labels| - 1])
  }

  /** The part of a block a turn wrote. */
  function Part(inputs: seq<Bytes>, t: Turn): Bytes
    requires t.written <= |BlockOf(inputs, t.task)|
  {
    BlockOf(inputs, t.task)[..t.written]
  }

  function Parts(inputs: seq<Bytes>, turns: seq<Turn>): Bytes
    requires forall i :: 0 <= i < |turns| ==> turns[i].written <= |BlockOf(inputs, turns[i].task)|
  {
    if turns == [] then []
    else Parts(inputs, turns[..|turns| - 1]) + Part(inputs, turns[|turns| - 1])
  }

  /** Each turn belongs to another command, none of them still waiting, and a
      turn that went through wrote its whole block. */
  ghost predicate TurnsFit(s: State) {
    && (forall t :: t in s.waiting ==> t < |s.inputs|)
    && (forall i :: 0 <= i < |s.turns| ==>
          && s.turns[i].task < |s.inputs| && s.turns[i].task !in s.waiting
          && s.turns[i].written <= |BlockOf(s.inputs, s.turns[i].task)|
          && (s.turns[i].ok ==> s.turns[i].written == |BlockOf(s.inputs, s.turns[i].task)|))
    && (forall i, j :: 0 <= i < j < |s.turns| ==> s.turns[i].task != s.turns[j].task)
    && match s.holder
       case None => true
       case Some(h) =>
         && h.task < |s.inputs| && h.task !in s.waiting && h.written <= |BlockOf(s.inputs, h.task)|
         && forall i :: 0 <= i < |s.turns| ==> s.turns[i].task != h.task
  }

  /** Stdin is the turns' parts in lock order, then what the holder has written;
      nobody else's bytes are in between. */
  ghost predicate Ordered(s: State) {
    && TurnsFit(s)
    && s.stdin == Parts(s.inputs, s.turns) +
                  if s.holder.Some? then BlockOf(s.inputs, s.holder.value.task)[..s.holder.value.written] else []
  }

  lemma StepFits(s: State, l: Label)
    requires TurnsFit(s)
    ensures TurnsFit(Step(s, l))
  {
  }

  lemma PartsSnoc(inputs: seq<Bytes>, turns: seq<Turn>, t: Turn)
    requires forall i :: 0 <= i < |turns| ==> turns[i].written <= |BlockOf(inputs, turns[i].task)|
    requires t.written <= |BlockOf(inputs, t.task)|
    ensures Parts(inputs, turns + [t]) == Parts(inputs, turns) + Part(inputs, t)
  {
    assert (turns + [t])[..|turns + [t]| - 1] == turns;
  }

  lemma WriteKeepsOrder(done: Bytes, block: Bytes, written: nat, count: nat)
    requires written + count <= |block|
    ensures done + block[..written] + block[written..written + count] == done + block[..written + count]
  {
    assert block[..written + count] == block[..written] + block[written..written + count];
    Concat3(done, block[..written], block[written..written + count]);
  }

  lemma TurnKeepsOrder(s: State, s': State, t: Turn)
    requires Ordered(s) && TurnsFit(s') && s.holder == Some(Holder(t.task, t.written))
    requires s' == s.(holder := None, turns := s.turns + [t])
    ensures Ordered(s')
  {
    hide Parts, BlockOf;
    PartsSnoc(s.inputs, s.turns, t);
  }

  lemma AcquireKeepsOrder(s: State, s': State, task: nat)
    requires Ordered(s) && TurnsFit(s') && s.holder.None?
    requires s' == s.(waiting := s'.waiting, holder := Some(Holder(task, 0)))
    ensures Ordered(s')
  {
    hide Parts, BlockOf;
    assert BlockOf(s.inputs, task)[..0] == [];
  }

  lemma CountKeepsOrder(s: State, s': State, count: nat)
    requires Ordered(s) && TurnsFit(s') && s.holder.Some?
    requires var h := s.holder.value;
             && h.written + count <= |BlockOf(s.inputs, h.task)|
             && s' == s.(holder := Some(h.(written := h.written + count)),
                         stdin := s.stdin + BlockOf(s.inputs, h.task)[h.written..h.written + count])
    ensures Ordered(s')
  {
    hide Parts, BlockOf;
    var h := s.holder.value;
    WriteKeepsOrder(Parts(s.inputs, s.turns), BlockOf(s.inputs, h.task), h.written, count);
  }

  lemma StepKeepsOrder(s: State, l: Label)
    requires Ordered(s)
    ensures Ordered(Step(s, l))
  {
    assert TurnsFit(s);
    hide Ordered, TurnsFit, BlockOf;
    StepFits(s, l);
    var s' := Step(s, l);
    if s'.turns != s.turns {
      TurnKeepsOrder(s, s', s'.turns[|s.turns|]);
    } else if s.holder.None? && s'.holder.Some? {
      AcquireKeepsOrder(s, s', l.task);
    } else if s' != s {
      CountKeepsOrder(s, s', l.count);
    }
  }

  /** However the commands interleave, stdin is made of one contiguous piece for
      each turn at the lock, in lock order, each a prefix of its block. */
  lemma {:induction false} RunKeepsOrder(inputs: seq<Bytes>, labels: seq<Label>)
    ensures Ordered(Run(inputs, labels)) && Run(inputs, labels).inputs == inputs
  {
    if labels != [] {
      var front, l := labels[..|labels| - 1], labels[|labels| - 1];
      RunKeepsOrder(inputs, front);
      hide Ordered;
      StepKeepsOrder(Run(inputs, front), l);
    }
  }

  /** The inputs of the commands in the order they had the lock, each with a
      newline, byte 10, behind it. */
  ghost function Blocks(inputs: seq<Bytes>, turns: seq<Turn>): Bytes
    requires forall i :: 0 <= i < |turns| ==> turns[i].task < |inputs|
  {
    if turns == [] then []
    else Blocks(inputs, turns[..|turns| - 1]) + (inputs[turns[|turns| - 1].task] + [10])
  }

  lemma {:induction false} WholeParts(inputs: seq<Bytes>, turns: seq<Turn>)
    requires forall i :: 0 <= i < |turns| ==>
               turns[i].task < |inputs| && turns[i].written == |BlockOf(inputs, turns[i].task)|
    ensures Parts(inputs, turns) == Blocks(inputs, turns)
  {
    if turns != [] {
      WholeParts(inputs, turns[..|turns| - 1]);
      var t := turns[|turns| - 1];
      assert BlockOf(inputs, t.task)[..t.written] == BlockOf(inputs, t.task);
    }
  }

  /** With every write successful and nobody at the lock, stdin is exactly whole
      input lines, one for each command served, none twice. */
  lemma WholeLinesInLockOrder(inputs: seq<Bytes>, labels: seq<Label>)
    requires Run(inputs, labels).holder.None?
    requires forall i :: 0 <= i < |Run(inputs, labels).turns| ==> Run(inputs, labels).turns[i].ok
    ensures var s := Run(inputs, labels);
            && (forall i :: 0 <= i < |s.turns| ==> s.turns[i].task < |inputs|)
            && s.stdin == Blocks(inputs, s.turns)
            && forall i, j :: 0 <= i < j < |s.turns| ==> s.turns[i].task != s.turns[j].task
  {
    RunKeepsOrder(inputs, labels);
    hide Run;
    WholeParts(inputs, Run(inputs, labels).turns);
  }

  // ---- Everybody is served ----

  /** A command takes the lock, writes in two goes, and lets go. */
  function Turns(inputs: seq<Bytes>, order: seq<nat>): seq<Label>
    requires forall i :: 0 <= i < |order| ==> order[i] < |inputs|
  {
    if order == [] then []
    else
      var t := order[|order| - 1];
      Turns(inputs, order[..|order| - 1]) + [Acquire(t)] + [Write(|inputs[t]|)] + [Write(1)] + [Release]
  }

  /** The inputs in the given order, each with a byte 10 behind it. */
  ghost function Served(inputs: seq<Bytes>, order: seq<nat>): Bytes
    requires forall i :: 0 <= i < |order| ==> order[i] < |inputs|
  {
    if order == [] then []
    else Served(inputs, order[..|order| - 1]) + (inputs[order[|order| - 1]] + [10])
  }

  lemma RunSnoc(inputs: seq<Bytes>, labels: seq<Label>, l: Label)
    ensures Run(inputs, labels + [l]) == Step(Run(inputs, labels), l)
  {
    assert (labels + [l])[..|labels + [l]| - 1] == labels;
  }

  lemma TakesTurn(s: State, t: nat)
    requires s.holder.None? && t in s.waiting && t < |s.inputs|
    ensures var n := |s.inputs[t]|;
            Step(Step(Step(Step(s, Acquire(t)), Write(n)), Write(1)), Release) ==
              s.(waiting := s.waiting - {t}, stdin := s.stdin + (s.inputs[t] + [10]),
                 turns := s.turns + [Turn(t, n + 1, true)])
  {
    var n, b := |s.inputs[t]|, BlockOf(s.inputs, t);
    assert b[0..n] == s.inputs[t] && b[n..n + 1] == [10];
    Concat3(s.stdin, s.inputs[t], [10]);
  }

  lemma {:induction false} AllWait(n: nat, t: nat)
    ensures t in Tasks(n) <==> t < n
  {
    if n > 0 {
      AllWait(n - 1, t);
    }
  }

  lemma {:induction false} InputsStay(inputs: seq<Bytes>, labels: seq<Label>)
    ensures Run(inputs, labels).inputs == inputs
  {
    if labels != [] {
      InputsStay(inputs, labels[..|labels| - 1]);
    }
  }

  /** In whatever order the commands come to the lock, each is served, and stdin
      has their lines in that order. */
  lemma {:induction false} EverybodyIsServed(inputs: seq<Bytes>, order: seq<nat>)
    requires forall i :: 0 <= i < |order| ==> order[i] < |inputs|
    requires forall i, j :: 0 <= i < j < |order| ==> order[i] != order[j]
    ensures var s := Run(inputs, Turns(inputs, order));
            && s.holder.None? && s.stdin == Served(inputs, order) && |s.turns| == |order|
            && (forall i :: 0 <= i < |order| ==> s.turns[i].task == order[i] && s.turns[i].ok)
            && forall t: nat :: t in s.waiting <==> t < |inputs| && t !in order
  {
    hide Step, Run;
    if order == [] {
      assert Turns(inputs, order) == [];
      NobodyYet(inputs);
    } else {
      var front, t := order[..|order| - 1], order[|order| - 1];
      assert order == front + [t];
      EverybodyIsServed(inputs, front);
      var labels := Turns(inputs, front);
      var l1 := labels + [Acquire(t)];
      var l2 := l1 + [Write(|inputs[t]|)];
      RunSnoc(inputs, labels, Acquire(t));
      RunSnoc(inputs, l1, Write(|inputs[t]|));
      RunSnoc(inputs, l2, Write(1));
      RunSnoc(inputs, l2 + [Write(1)], Release);
      InputsStay(inputs, labels);
      TakesTurn(Run(inputs, labels), t);
    }
  }

  lemma NobodyYet(inputs: seq<Bytes>)
    ensures Run(inputs, []) == Init(inputs) && forall t: nat :: t in Init(inputs).waiting <==> t < |inputs|
  {
    forall t: nat
      ensures t in Init(inputs).waiting <==> t < |inputs|
    {
      AllWait(|inputs|, t);
    }
  }

  /** A write that fails lets the next command in: in every run, whoever is at the
      lock, its failure leaves what it wrote and anyone waiting can be served. */
  lemma FailureFreesLock(inputs: seq<Bytes>, labels: seq<Label>, t: nat)
    requires Run(inputs, labels).holder.Some? && t in Run(inputs, labels).waiting && t < |inputs|
    ensures var s := Run(inputs, labels);
            var s' := Run(inputs, labels + [Fail] + [Acquire(t)] + [Write(|inputs[t]|)] + [Write(1)] + [Release]);
            && s'.holder.None? && s'.stdin == s.stdin + (inputs[t] + [10])
            && s'.turns == s.turns + [Turn(s.holder.value.task, s.holder.value.written, false)] +
                           [Turn(t, |inputs[t]| + 1, true)]
  {
    var s, l := Run(inputs, labels), labels + [Fail];
    InputsStay(inputs, labels);
    var l1 := l + [Acquire(t)];
    var l2 := l1 + [Write(|inputs[t]|)];
    RunSnoc(inputs, labels, Fail);
    RunSnoc(inputs, l, Acquire(t));
    RunSnoc(inputs, l1, Write(|inputs[t]|));
    RunSnoc(inputs, l2, Write(1));
    RunSnoc(inputs, l2 + [Write(1)], Release);
    hide Run;
    var freed := s.(holder := None, turns := s.turns + [Turn(s.holder.value.task, s.holder.value.written, false)]);
    assert Step(s, Fail) == freed;
    hide Step;
    TakesTurn(freed, t);
  }
}
