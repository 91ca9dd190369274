/** Replay safety over two clocks, within a session and across sessions.

Freshness is judged by the wall clock in whole seconds, the cache expires by the
monotonic clock. They are only assumed to agree up to a drift, and the drift the
constants tolerate is found exactly. The cache belongs to the session, and what
that leaves open over several sessions is found exactly as well. */
module Replay {
  import opened Basics
  import opened Protocol
  import opened Signing
  import opened NonceCache
  import opened Agent

  /** The clock readings of a run, in order. */
  function Readings(labels: seq<Label>): seq<Reading> {
    if labels == [] then []
    else if labels[|labels| - 1].Receive? then Readings(labels[..|labels| - 1]) + [labels[|labels| - 1].reading]
    else Readings(labels[..|labels| - 1])
  }

  /** The monotonic clock never goes back, and between any two readings it
      advances at most `drift` more than the wall clock. */
  ghost predicate ClocksAgree(rs: seq<Reading>, drift: int) {
    forall i, j :: 0 <= i < j < |rs| ==>
      && rs[i].mono <= rs[j].mono
      && rs[j].mono - rs[i].mono <= rs[j].wall - rs[i].wall + drift
  }

  /** A clock that never goes back is all the cache itself needs. */
  ghost predicate MonoOrdered(rs: seq<Reading>) {
    forall i, j :: 0 <= i < j < |rs| ==> rs[i].mono <= rs[j].mono
  }

  /** What makes two envelopes the same for the cache and for freshness. */
  predicate Same(e: Envelope, f: Envelope) {
    e.nonce == f.nonce && e.timestamp == f.timestamp
  }

  /** No envelope was accepted twice. */
  ghost predicate NoReplay(accepted: seq<Acceptance>) {
    forall i, j :: 0 <= i < j < |accepted| ==> !Same(accepted[i].envelope, accepted[j].envelope)
  }

  ghost predicate Among(e: Envelope, accepted: seq<Acceptance>) {
    exists k :: 0 <= k < |accepted| && Same(accepted[k].envelope, e)
  }

  /** The commands of accepted envelopes, in order: those of kind "command" whose
      payload decodes. */
  ghost function CommandsIn(cfg: Config, accepted: seq<Acceptance>): seq<Command> {
    if accepted == [] then []
    else
      var front, e := CommandsIn(cfg, accepted[..|accepted| - 1]), accepted[|accepted| - 1].envelope;
      if e.kind == "command" && cfg.decode(e.payload).Some? then front + [cfg.decode(e.payload).value] else front
  }

  function CallOf(a: Acceptance): Call {
    Call(a.envelope.nonce, a.reading.mono)
  }

  function LogOf(accepted: seq<Acceptance>): seq<Call> {
    seq(|accepted|, i requires 0 <= i < |accepted| => CallOf(accepted[i]))
  }

  /** What the constants tolerate: the cache outlives two skew windows and the
      second lost to rounding by 59 seconds. */
  const DRIFT_LIMIT := 59_000_000_000

  /** Two readings at which one timestamp is fresh are closer than the cache's
      lifetime. */
  lemma FreshTwiceIsRecent(timestamp: i64, r: Reading, q: Reading, drift: int)
    requires IsFresh(r.wall / SECOND, timestamp) && IsFresh(q.wall / SECOND, timestamp)
    requires q.mono - r.mono <= q.wall - r.wall + drift && drift <= DRIFT_LIMIT
    ensures q.mono - r.mono < NONCE_CACHE_TTL
  {
    FreshExactly(r.wall / SECOND, timestamp);
    FreshExactly(q.wall / SECOND, timestamp);
  }

  /** The cache stands for the session's acceptances. */
  ghost predicate CacheSound(s: Session, rs: seq<Reading>) {
    Holds(s.seen, LogOf(s.accepted), NONCE_CACHE_TTL, LastMono(rs))
  }

  /** They were fresh when accepted, distinct, and theirs are the commands. */
  ghost predicate Safe(cfg: Config, s: Session, rs: seq<Reading>) {
    && (forall k :: 0 <= k < |s.accepted| ==>
          && s.accepted[k].reading in rs
          && IsFresh(s.accepted[k].reading.wall / SECOND, s.accepted[k].envelope.timestamp))
    && NoReplay(s.accepted)
    && s.dispatched == CommandsIn(cfg, s.accepted)
  }

  function LastMono(rs: seq<Reading>): nat {
    if rs == [] then 0 else rs[|rs| - 1].mono
  }

  lemma HoldsLater(seen: map<string, nat>, log: seq<Call>, last: nat, later: nat)
    requires Holds(seen, log, NONCE_CACHE_TTL, last) && last <= later
    ensures Holds(seen, log, NONCE_CACHE_TTL, later)
  {
  }

  lemma MonoAdvances(rs: seq<Reading>, r: Reading)
    requires MonoOrdered(rs + [r])
    ensures MonoOrdered(rs) && LastMono(rs) <= r.mono
  {
    var all := rs + [r];
    assert all[|rs|] == r;
    assert forall i :: 0 <= i < |rs| ==> all[i] == rs[i];
  }

  lemma ClockAdvances(rs: seq<Reading>, r: Reading, drift: int)
    requires ClocksAgree(rs + [r], drift)
    ensures ClocksAgree(rs, drift) && MonoOrdered(rs + [r])
    ensures forall q :: q in rs ==> r.mono - q.mono <= r.wall - q.wall + drift
  {
    var all := rs + [r];
    assert all[|rs|] == r;
    assert forall i :: 0 <= i < |rs| ==> all[i] == rs[i];
  }

  lemma CommandsInSnoc(cfg: Config, accepted: seq<Acceptance>, a: Acceptance)
    ensures CommandsIn(cfg, accepted + [a]) == match CommandOf(cfg, a.envelope)
              case None => CommandsIn(cfg, accepted)
              case Some(cmd) => CommandsIn(cfg, accepted) + [cmd]
  {
    assert (accepted + [a])[..|accepted + [a]| - 1] == accepted;
  }

  lemma AcceptFields(cfg: Config, s: Session, e: Envelope, r: Reading)
    ensures var s' := Accept(cfg, s, e, r);
            && s'.seen == Check(s.seen, NONCE_CACHE_TTL, e.nonce, r.mono).seen
            && s'.accepted == s.accepted + [Acceptance(e, r)]
            && LogOf(s'.accepted) == LogOf(s.accepted) + [Call(e.nonce, r.mono)]
            && (s.dispatched == CommandsIn(cfg, s.accepted) ==> s'.dispatched == CommandsIn(cfg, s'.accepted))
  {
    hide Check;
    CommandsInSnoc(cfg, s.accepted, Acceptance(e, r));
  }

  /** The envelope a step accepts, if it does. */
  function AcceptedBy(cfg: Config, a: State, l: Label): Option<Acceptance> {
    if Idle(a) && l.Receive? && l.message.Text? && l.message.envelope.Some? &&
       Passes(cfg, a.session.value, l.message.envelope.value, l.reading)
    then Some(Acceptance(l.message.envelope.value, l.reading))
    else None
  }

  /** What a step does to the cache and the acceptances: it starts a session,
      accepts one envelope, or leaves them alone. */
  ghost predicate StepKeeps(cfg: Config, a: State, l: Label) {
    var a', x := Step(cfg, a, l), AcceptedBy(cfg, a, l);
    && (x.Some? ==> a'.session == Some(Accept(cfg, a.session.value, x.value.envelope, x.value.reading)))
    && (x.None? && a'.session.Some? && a.session.Some? ==>
          var s, t := a.session.value, a'.session.value;
          (t.seen, t.accepted, t.dispatched) == (s.seen, s.accepted, s.dispatched))
    && (a'.session.Some? && a.session.None? ==> a'.session.value == NewSession())
    && AcceptedEver(a') == AcceptedEver(a) + if x.Some? then [x.value] else []
  }

  lemma ReceiveAccepts(cfg: Config, a: State, l: Label)
    requires l.Receive?
    ensures StepKeeps(cfg, a, l)
  {
    hide Passes, Check;
  }

  lemma SentAccepts(cfg: Config, a: State, l: Label)
    requires l.Sent?
    ensures StepKeeps(cfg, a, l)
  {
    hide Passes, Check, Handle, FinishTask;
  }

  lemma FinishAccepts(cfg: Config, a: State, l: Label)
    requires l.Finish?
    ensures StepKeeps(cfg, a, l)
  {
    hide Passes, Check, Handle, FinishSend;
  }

  lemma OtherAccepts(cfg: Config, a: State, l: Label)
    requires !l.Receive? && !l.Sent? && !l.Finish?
    ensures StepKeeps(cfg, a, l)
  {
    hide Passes, Check, Handle, FinishSend, FinishTask;
  }

  lemma StepAccepts(cfg: Config, a: State, l: Label)
    ensures StepKeeps(cfg, a, l)
  {
    hide StepKeeps;
    if l.Receive? {
      ReceiveAccepts(cfg, a, l);
    } else if l.Sent? {
      SentAccepts(cfg, a, l);
    } else if l.Finish? {
      FinishAccepts(cfg, a, l);
    } else {
      OtherAccepts(cfg, a, l);
    }
  }

  // ---- What the cache decides ----

  lemma AcceptIsCached(cfg: Config, s: Session, rs: seq<Reading>, e: Envelope, r: Reading)
    requires CacheSound(s, rs) && LastMono(rs) <= r.mono && Passes(cfg, s, e, r)
    ensures CacheSound(Accept(cfg, s, e, r), rs + [r])
  {
    hide Holds, Check, LogOf, Accept, CommandsIn, Verify;
    CheckKeepsLog(s.seen, LogOf(s.accepted), NONCE_CACHE_TTL, LastMono(rs), Call(e.nonce, r.mono));
    AcceptFields(cfg, s, e, r);
  }

  function ReadingsAfter(rs: seq<Reading>, l: Label): seq<Reading> {
    if l.Receive? then rs + [l.reading] else rs
  }

  lemma CachedLater(s: Session, t: Session, rs: seq<Reading>, l: Label)
    requires CacheSound(s, rs) && s.seen == t.seen && s.accepted == t.accepted
    requires l.Receive? ==> LastMono(rs) <= l.reading.mono
    ensures CacheSound(t, ReadingsAfter(rs, l))
  {
    if l.Receive? {
      HoldsLater(s.seen, LogOf(s.accepted), LastMono(rs), l.reading.mono);
    }
  }

  lemma NewSessionIsSafe(cfg: Config, rs: seq<Reading>)
    ensures CacheSound(NewSession(), rs) && Safe(cfg, NewSession(), rs)
  {
  }

  lemma StepIsCached(cfg: Config, a: State, l: Label, rs: seq<Reading>)
    requires a.session.Some? ==> CacheSound(a.session.value, rs)
    requires l.Receive? ==> LastMono(rs) <= l.reading.mono
    ensures var a' := Step(cfg, a, l); a'.session.Some? ==> CacheSound(a'.session.value, ReadingsAfter(rs, l))
  {
    hide Step, CacheSound, Passes, Accept;
    StepAccepts(cfg, a, l);
    NewSessionIsSafe(cfg, ReadingsAfter(rs, l));
    var a', x := Step(cfg, a, l), AcceptedBy(cfg, a, l);
    if x.Some? {
      AcceptIsCached(cfg, a.session.value, rs, x.value.envelope, x.value.reading);
    } else if a.session.Some? && a'.session.Some? {
      CachedLater(a.session.value, a'.session.value, rs, l);
    }
  }

  lemma {:induction false} RunIsCached(cfg: Config, labels: seq<Label>)
    requires MonoOrdered(Readings(labels))
    ensures var a := Run(cfg, labels); a.session.Some? ==> CacheSound(a.session.value, Readings(labels))
  {
    if labels != [] {
      var front, l := labels[..|labels| - 1], labels[|labels| - 1];
      if l.Receive? {
        MonoAdvances(Readings(front), l.reading);
      }
      RunIsCached(cfg, front);
      hide Step, CacheSound, MonoOrdered;
      StepIsCached(cfg, Run(cfg, front), l, Readings(front));
    }
  }

  /** The nonce was not accepted within the cache's lifetime. */
  ghost predicate NotSeen(s: Session, nonce: string, now: nat) {
    forall k :: 0 <= k < |s.accepted| && s.accepted[k].envelope.nonce == nonce ==>
      now - s.accepted[k].reading.mono >= 120_000_000_000
  }

  lemma RecentIsSeen(s: Session, nonce: string, now: nat)
    ensures Recent(LogOf(s.accepted), NONCE_CACHE_TTL, nonce, now) <==> !NotSeen(s, nonce, now)
  {
    var log := LogOf(s.accepted);
    assert forall k :: 0 <= k < |log| ==> log[k] == CallOf(s.accepted[k]);
  }

  lemma CachedPasses(cfg: Config, s: Session, rs: seq<Reading>, e: Envelope, r: Reading)
    requires CacheSound(s, rs) && LastMono(rs) <= r.mono
    ensures Passes(cfg, s, e, r) <==>
            Verify(cfg.crypto, cfg.secret, e, r.wall / 1_000_000_000) && NotSeen(s, e.nonce, r.mono)
  {
    hide Holds, Check, Recent, NotSeen, LogOf, Verify;
    CheckKeepsLog(s.seen, LogOf(s.accepted), NONCE_CACHE_TTL, LastMono(rs), Call(e.nonce, r.mono));
    RecentIsSeen(s, e.nonce, r.mono);
  }

  /** At every point of every run an envelope is let through exactly when it
      verifies and the session accepted its nonce in none of the last 120
      seconds, however the wall clock moves. */
  lemma PassesExactly(cfg: Config, labels: seq<Label>, e: Envelope, r: Reading)
    requires MonoOrdered(Readings(labels) + [r])
    requires Run(cfg, labels).session.Some?
    ensures var s := Run(cfg, labels).session.value;
            Passes(cfg, s, e, r) <==>
              Verify(cfg.crypto, cfg.secret, e, r.wall / 1_000_000_000) && NotSeen(s, e.nonce, r.mono)
  {
    hide Run, Readings, Verify, CacheSound, MonoOrdered, Passes, NotSeen;
    MonoAdvances(Readings(labels), r);
    RunIsCached(cfg, labels);
    CachedPasses(cfg, Run(cfg, labels).session.value, Readings(labels), e, r);
  }

  // ---- Within a session ----

  lemma AcceptIsNoReplay(cfg: Config, s: Session, rs: seq<Reading>, e: Envelope, r: Reading, drift: int)
    requires CacheSound(s, rs) && Safe(cfg, s, rs) && ClocksAgree(rs + [r], drift) && drift <= DRIFT_LIMIT
    requires Passes(cfg, s, e, r)
    ensures !Among(e, s.accepted)
  {
    ClockAdvances(rs, r, drift);
    MonoAdvances(rs, r);
    CachedPasses(cfg, s, rs, e, r);
    hide CacheSound, Check, CommandsIn, NoReplay, IsFresh, ClocksAgree, MonoOrdered;
    forall k | 0 <= k < |s.accepted|
      ensures !Same(s.accepted[k].envelope, e)
    {
      var a := s.accepted[k];
      if a.envelope.timestamp == e.timestamp {
        FreshTwiceIsRecent(e.timestamp, a.reading, r, drift);
      }
    }
  }

  lemma NoReplaySnoc(accepted: seq<Acceptance>, a: Acceptance)
    ensures NoReplay(accepted + [a]) <==> NoReplay(accepted) && !Among(a.envelope, accepted)
  {
    var all := accepted + [a];
    assert all[|accepted|] == a;
    assert forall i :: 0 <= i < |accepted| ==> all[i] == accepted[i];
  }

  lemma AcceptIsSafe(cfg: Config, s: Session, rs: seq<Reading>, e: Envelope, r: Reading)
    requires Safe(cfg, s, rs) && !Among(e, s.accepted) && IsFresh(r.wall / 1_000_000_000, e.timestamp)
    ensures Safe(cfg, Accept(cfg, s, e, r), rs + [r])
  {
    hide Check, CommandsIn, IsFresh, LogOf, Accept, NoReplay, Among;
    AcceptFields(cfg, s, e, r);
    NoReplaySnoc(s.accepted, Acceptance(e, r));
    assert r in rs + [r];
  }

  lemma SafeLater(cfg: Config, s: Session, t: Session, rs: seq<Reading>, l: Label)
    requires Safe(cfg, s, rs) && s.accepted == t.accepted && s.dispatched == t.dispatched
    ensures Safe(cfg, t, ReadingsAfter(rs, l))
  {
    hide CommandsIn, IsFresh, NoReplay;
  }

  lemma StepIsSafe(cfg: Config, a: State, l: Label, rs: seq<Reading>, drift: int)
    requires a.session.Some? ==> CacheSound(a.session.value, rs) && Safe(cfg, a.session.value, rs)
    requires l.Receive? ==> ClocksAgree(rs + [l.reading], drift)
    requires drift <= DRIFT_LIMIT
    ensures var a' := Step(cfg, a, l); a'.session.Some? ==> Safe(cfg, a'.session.value, ReadingsAfter(rs, l))
  {
    hide Step, CacheSound, Safe, Accept, ClocksAgree, Check, Among;
    StepAccepts(cfg, a, l);
    NewSessionIsSafe(cfg, ReadingsAfter(rs, l));
    var a', x := Step(cfg, a, l), AcceptedBy(cfg, a, l);
    if x.Some? {
      AcceptIsNoReplay(cfg, a.session.value, rs, x.value.envelope, x.value.reading, drift);
      AcceptIsSafe(cfg, a.session.value, rs, x.value.envelope, x.value.reading);
    } else if a.session.Some? && a'.session.Some? {
      SafeLater(cfg, a.session.value, a'.session.value, rs, l);
    }
  }

  lemma AgreeingIsOrdered(rs: seq<Reading>, drift: int)
    requires ClocksAgree(rs, drift)
    ensures MonoOrdered(rs)
  {
  }

  lemma {:induction false} RunIsSafe(cfg: Config, labels: seq<Label>, drift: int)
    requires ClocksAgree(Readings(labels), drift) && drift <= DRIFT_LIMIT
    ensures var a := Run(cfg, labels); a.session.Some? ==> Safe(cfg, a.session.value, Readings(labels))
  {
    if labels != [] {
      var front, l := labels[..|labels| - 1], labels[|labels| - 1];
      if l.Receive? {
        ClockAdvances(Readings(front), l.reading, drift);
      }
      RunIsSafe(cfg, front, drift);
      hide Step, Safe, CacheSound, ClocksAgree;
      AgreeingIsOrdered(Readings(front), drift);
      RunIsCached(cfg, front);
      StepIsSafe(cfg, Run(cfg, front), l, Readings(front), drift);
    }
  }

  /** In every run of every session, no envelope is accepted twice, so none acts
      twice: the commands dispatched are those of the accepted envelopes. */
  lemma NoEnvelopeActsTwice(cfg: Config, labels: seq<Label>, drift: int)
    requires ClocksAgree(Readings(labels), drift) && drift <= DRIFT_LIMIT
    ensures var a := Run(cfg, labels);
            a.session.Some? ==> NoReplay(a.session.value.accepted) &&
                                a.session.value.dispatched == CommandsIn(cfg, a.session.value.accepted)
  {
    RunIsSafe(cfg, labels, drift);
  }

  /** A replayed envelope drops the connection instead of being processed. */
  lemma ReplayEndsSession(cfg: Config, labels: seq<Label>, e: Envelope, r: Reading, drift: int)
    requires ClocksAgree(Readings(labels) + [r], drift) && drift <= DRIFT_LIMIT
    requires Idle(Run(cfg, labels)) && Among(e, Run(cfg, labels).session.value.accepted)
    ensures Step(cfg, Run(cfg, labels), Receive(Text(Some(e)), r)) == End(Run(cfg, labels), Rejected)
  {
    hide Run, Readings, Safe, CacheSound, ClocksAgree, Passes, Accept, FinishSend, FinishTask, Among;
    ClockAdvances(Readings(labels), r, drift);
    AgreeingIsOrdered(Readings(labels), drift);
    RunIsCached(cfg, labels);
    RunIsSafe(cfg, labels, drift);
    var s := Run(cfg, labels).session.value;
    if Passes(cfg, s, e, r) {
      AcceptIsNoReplay(cfg, s, Readings(labels), e, r, drift);
    }
  }

  // ---- Across sessions ----

  ghost predicate AllVerified(cfg: Config, accepted: seq<Acceptance>) {
    forall k :: 0 <= k < |accepted| ==>
      Verify(cfg.crypto, cfg.secret, accepted[k].envelope, accepted[k].reading.wall / SECOND)
  }

  lemma {:induction false} EverVerified(cfg: Config, labels: seq<Label>)
    ensures AllVerified(cfg, AcceptedEver(Run(cfg, labels)))
  {
    if labels != [] {
      var front, l := labels[..|labels| - 1], labels[|labels| - 1];
      EverVerified(cfg, front);
      StepAccepts(cfg, Run(cfg, front), l);
      hide Step, Verify, AcceptedEver;
    }
  }

  /** An envelope accepted in an earlier session passes again exactly while it is
      still fresh and the present session has not accepted its nonce: the cache
      of the earlier session is gone. */
  lemma EarlierPassesAgainExactly(cfg: Config, labels: seq<Label>, e: Envelope, r: Reading, k: nat)
    requires MonoOrdered(Readings(labels) + [r])
    requires Run(cfg, labels).session.Some?
    requires k < |Run(cfg, labels).before| && Run(cfg, labels).before[k].envelope == e
    ensures var s := Run(cfg, labels).session.value;
            Passes(cfg, s, e, r) <==> IsFresh(r.wall / 1_000_000_000, e.timestamp) && NotSeen(s, e.nonce, r.mono)
  {
    hide Run, Readings, MonoOrdered, Passes, NotSeen, IsFresh, Sign;
    EverVerified(cfg, labels);
    assert AcceptedEver(Run(cfg, labels))[k] == Run(cfg, labels).before[k];
    PassesExactly(cfg, labels, e, r);
  }

  /** A step that accepts what an earlier session accepted. */
  ghost predicate Crosses(cfg: Config, a: State, l: Label) {
    && Idle(a) && l.Receive? && l.message.Text? && l.message.envelope.Some?
    && Verify(cfg.crypto, cfg.secret, l.message.envelope.value, l.reading.wall / SECOND)
    && NotSeen(a.session.value, l.message.envelope.value.nonce, l.reading.mono)
    && Among(l.message.envelope.value, a.before)
  }

  ghost predicate Uncrossed(cfg: Config, labels: seq<Label>) {
    labels == [] ||
    var front, l := labels[..|labels| - 1], labels[|labels| - 1];
    Uncrossed(cfg, front) && !Crosses(cfg, Run(cfg, front), l)
  }

  lemma AmongEither(e: Envelope, p: seq<Acceptance>, q: seq<Acceptance>)
    ensures Among(e, p + q) <==> Among(e, p) || Among(e, q)
  {
    var all := p + q;
    assert forall i :: 0 <= i < |p| ==> all[i] == p[i];
    assert forall i :: 0 <= i < |q| ==> all[|p| + i] == q[i];
    if Among(e, all) {
      var k :| 0 <= k < |all| && Same(all[k].envelope, e);
      assert k >= |p| ==> q[k - |p|] == all[k];
    }
  }

  lemma StepReplaysExactly(cfg: Config, a: State, l: Label, rs: seq<Reading>, drift: int)
    requires a.session.Some? ==> CacheSound(a.session.value, rs) && Safe(cfg, a.session.value, rs)
    requires l.Receive? ==> ClocksAgree(rs + [l.reading], drift)
    requires drift <= DRIFT_LIMIT
    ensures NoReplay(AcceptedEver(Step(cfg, a, l))) <==> NoReplay(AcceptedEver(a)) && !Crosses(cfg, a, l)
  {
    hide Step, CacheSound, Safe, Passes, Among, NoReplay, ClocksAgree, Verify, NotSeen, MonoOrdered, Accept;
    StepAccepts(cfg, a, l);
    if Idle(a) && l.Receive? && l.message.Text? && l.message.envelope.Some? {
      var s, e := a.session.value, l.message.envelope.value;
      ClockAdvances(rs, l.reading, drift);
      MonoAdvances(rs, l.reading);
      CachedPasses(cfg, s, rs, e, l.reading);
      if Passes(cfg, s, e, l.reading) {
        AcceptIsNoReplay(cfg, s, rs, e, l.reading, drift);
        AmongEither(e, a.before, s.accepted);
        NoReplaySnoc(AcceptedEver(a), Acceptance(e, l.reading));
      }
    }
    assert AcceptedEver(a) + [] == AcceptedEver(a);
  }

  /** Over the whole life of the daemon no envelope is accepted twice exactly when
      none arrives that verifies, was accepted in an earlier session and was not
      accepted in the present one. */
  lemma {:induction false} ReplayAcrossSessionsExactly(cfg: Config, labels: seq<Label>, drift: int)
    requires ClocksAgree(Readings(labels), drift) && drift <= DRIFT_LIMIT
    ensures NoReplay(AcceptedEver(Run(cfg, labels))) <==> Uncrossed(cfg, labels)
  {
    if labels != [] {
      var front, l := labels[..|labels| - 1], labels[|labels| - 1];
      if l.Receive? {
        ClockAdvances(Readings(front), l.reading, drift);
      }
      ReplayAcrossSessionsExactly(cfg, front, drift);
      hide Step, Safe, CacheSound, ClocksAgree, NoReplay, Crosses, AcceptedEver;
      AgreeingIsOrdered(Readings(front), drift);
      RunIsCached(cfg, front);
      RunIsSafe(cfg, front, drift);
      StepReplaysExactly(cfg, Run(cfg, front), l, Readings(front), drift);
    }
  }

  /** A peer that closes and accepts the next dial gets any envelope in twice. */
  function AcrossLabels(e: Envelope, r: Reading): seq<Label> {
    [Dial(true), Sent(true), Receive(Text(Some(e)), r), Receive(Closed, r),
     Wake, Dial(true), Sent(true), Receive(Text(Some(e)), r)]
  }

  lemma {:induction false} RunFirst(cfg: Config, labels: seq<Label>, n: nat)
    requires n < |labels|
    ensures Run(cfg, labels[..n + 1]) == Step(cfg, Run(cfg, labels[..n]), labels[n])
    ensures Readings(labels[..n + 1]) == ReadingsAfter(Readings(labels[..n]), labels[n])
  {
    assert labels[..n + 1][..n] == labels[..n];
  }

  /** A session whose hello is out. */
  function Greeted(): Session {
    NewSession().(sending := None, wire := [Hello])
  }

  lemma OpensSession(cfg: Config, a: State)
    requires a.session.None? && !a.sleeping && !a.stopped
    ensures Step(cfg, Step(cfg, a, Dial(true)), Sent(true)) == a.(session := Some(Greeted()), backoff := MIN_BACKOFF)
  {
    assert [] + [Hello] == [Hello];
  }

  lemma ClosesSession(cfg: Config, a: State, r: Reading)
    requires Idle(a) && !a.stopped && !a.cancelled
    ensures var a' := Step(cfg, Step(cfg, a, Receive(Closed, r)), Wake);
            a'.session.None? && !a'.sleeping && !a'.stopped && a'.before == AcceptedEver(a)
  {
  }

  lemma SessionAccepts(cfg: Config, a: State, e: Envelope, r: Reading)
    requires a.session == Some(Greeted())
    requires Verify(cfg.crypto, cfg.secret, e, r.wall / 1_000_000_000)
    ensures var a' := Step(cfg, a, Receive(Text(Some(e)), r));
            && Idle(a') && a' == a.(session := a'.session) && a'.session.value.accepted == [Acceptance(e, r)]
            && a'.session.value.dispatched == CommandsIn(cfg, [Acceptance(e, r)])
  {
    NoCommands(cfg);
    hide Verify, Check, CommandsIn;
    var s := a.session.value;
    NothingSeen(e.nonce, r.mono);
    AcceptFields(cfg, s, e, r);
    assert [] + [Acceptance(e, r)] == [Acceptance(e, r)];
  }

  lemma NothingSeen(nonce: string, now: nat)
    ensures Check(map[], NONCE_CACHE_TTL, nonce, now).accepted
  {
  }

  lemma NoCommands(cfg: Config)
    ensures CommandsIn(cfg, []) == []
  {
  }

  /** Every envelope that verifies is accepted, and its command dispatched, once
      more after a reconnect, with both clocks standing still. */
  lemma AcceptedAgainAfterReconnect(cfg: Config, e: Envelope, r: Reading)
    requires Verify(cfg.crypto, cfg.secret, e, r.wall / 1_000_000_000)
    ensures ClocksAgree(Readings(AcrossLabels(e, r)), 0)
    ensures var a := Run(cfg, AcrossLabels(e, r));
            && a.before == [Acceptance(e, r)]
            && a.session.Some? && a.session.value.accepted == [Acceptance(e, r)]
            && a.session.value.dispatched == CommandsIn(cfg, [Acceptance(e, r)])
  {
    hide Run, Step, Readings, Verify, CommandsIn;
    var ls := AcrossLabels(e, r);
    EmptyRun(cfg);
    NoReadings();
    assert ls[..0] == [] && ls[..8] == ls;
    RunFirst(cfg, ls, 0);
    RunFirst(cfg, ls, 1);
    RunFirst(cfg, ls, 2);
    RunFirst(cfg, ls, 3);
    RunFirst(cfg, ls, 4);
    RunFirst(cfg, ls, 5);
    RunFirst(cfg, ls, 6);
    RunFirst(cfg, ls, 7);
    OpensSession(cfg, Init());
    SessionAccepts(cfg, Run(cfg, ls[..2]), e, r);
    ClosesSession(cfg, Run(cfg, ls[..3]), r);
    OpensSession(cfg, Run(cfg, ls[..5]));
    SessionAccepts(cfg, Run(cfg, ls[..7]), e, r);
    assert [] + [Acceptance(e, r)] == [Acceptance(e, r)];
  }

  // ---- The bound is exact ----

  /** One nanosecond too much drift, and one envelope is accepted twice: first when
      it is 30 seconds early, again when it is 30 seconds late. */
  function TwiceLabels(e: Envelope): seq<Label> {
    [Dial(true), Sent(true),
     Receive(Text(Some(e)), Reading(0, 0)),
     Receive(Text(Some(e)), Reading(61 * SECOND - 1, NONCE_CACHE_TTL))]
  }

  lemma ReadingsSnoc(labels: seq<Label>, l: Label)
    ensures Readings(labels + [l]) == if l.Receive? then Readings(labels) + [l.reading] else Readings(labels)
  {
    assert (labels + [l])[..|labels + [l]| - 1] == labels;
  }

  lemma TwiceRuns(cfg: Config, e: Envelope)
    ensures Readings(TwiceLabels(e)) == [Reading(0, 0), Reading(61 * SECOND - 1, NONCE_CACHE_TTL)]
    ensures var ls := TwiceLabels(e);
            Run(cfg, ls) == Step(cfg, Step(cfg, Step(cfg, Step(cfg, Init(), ls[0]), ls[1]), ls[2]), ls[3])
  {
    hide Step, Run, Readings;
    var ls := TwiceLabels(e);
    var l1, l2, l3 := [ls[0]], [ls[0], ls[1]], [ls[0], ls[1], ls[2]];
    RunSnoc(cfg, [], ls[0]);
    RunSnoc(cfg, l1, ls[1]);
    RunSnoc(cfg, l2, ls[2]);
    RunSnoc(cfg, l3, ls[3]);
    ReadingsSnoc([], ls[0]);
    ReadingsSnoc(l1, ls[1]);
    ReadingsSnoc(l2, ls[2]);
    ReadingsSnoc(l3, ls[3]);
    assert [] + [ls[0]] == l1 && l1 + [ls[1]] == l2 && l2 + [ls[2]] == l3 && l3 + [ls[3]] == ls;
    EmptyRun(cfg);
    NoReadings();
  }

  lemma NoReadings()
    ensures Readings([]) == []
  {
  }

  /** Both checks let the envelope through. */
  lemma TwicePasses(cfg: Config, s: Session, e: Envelope)
    requires e == MakeSigned(cfg.crypto, cfg.secret, "event", [], 30, "n")
    requires s.seen == map[] && s.accepted == []
    ensures Passes(cfg, s, e, Reading(0, 0))
    ensures var s' := Accept(cfg, s, e, Reading(0, 0));
            && s'.accepted == [Acceptance(e, Reading(0, 0))]
            && s'.sending == s.sending
            && Passes(cfg, s', e, Reading(61 * SECOND - 1, NONCE_CACHE_TTL))
  {
    hide Sign;
    assert Sweep(s.seen, NONCE_CACHE_TTL, 0) == map[];
    var s' := Accept(cfg, s, e, Reading(0, 0));
    assert s'.seen == map["n" := 0];
    assert Sweep(s'.seen, NONCE_CACHE_TTL, NONCE_CACHE_TTL) == map[];
  }

  lemma TwiceAccepted(cfg: Config, e: Envelope)
    requires e == MakeSigned(cfg.crypto, cfg.secret, "event", [], 30, "n")
    ensures var a := Run(cfg, TwiceLabels(e)); a.session.Some? && !NoReplay(a.session.value.accepted)
  {
    hide Run, MakeSigned, Passes, Accept;
    TwiceRuns(cfg, e);
    var s1 := NewSession().(sending := None, wire := [] + [Hello]);
    TwicePasses(cfg, s1, e);
    var s2 := Accept(cfg, s1, e, Reading(0, 0));
    var s3 := Accept(cfg, s2, e, Reading(61 * SECOND - 1, NONCE_CACHE_TTL));
    AcceptFields(cfg, s2, e, Reading(61 * SECOND - 1, NONCE_CACHE_TTL));
    assert Run(cfg, TwiceLabels(e)).session == Some(s3);
    assert s3.accepted[0].envelope == e && s3.accepted[1].envelope == e;
  }

  /** Replay safety holds for every run under a drift exactly when the drift is
      at most 59 seconds. */
  lemma ReplaySafetyExactly(cfg: Config, drift: int)
    ensures drift <= DRIFT_LIMIT <==>
            forall labels :: ClocksAgree(Readings(labels), drift) ==>
              var a := Run(cfg, labels); a.session.Some? ==> NoReplay(a.session.value.accepted)
  {
    if drift <= DRIFT_LIMIT {
      forall labels | ClocksAgree(Readings(labels), drift)
        ensures var a := Run(cfg, labels); a.session.Some? ==> NoReplay(a.session.value.accepted)
      {
        NoEnvelopeActsTwice(cfg, labels, drift);
      }
    } else {
      var e := MakeSigned(cfg.crypto, cfg.secret, "event", [], 30, "n");
      hide Run, Readings, NoReplay, MakeSigned;
      TwiceRuns(cfg, e);
      TwiceAccepted(cfg, e);
      assert ClocksAgree(Readings(TwiceLabels(e)), drift);
    }
  }
}
