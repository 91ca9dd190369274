/** The replay cache: a nonce is accepted once within `ttl`. */
module NonceCache {

  /** Elapsed monotonic time, never negative. */
  function Age(now: nat, since: nat): nat {
    if now < since then 0 else now - since
  }

  function Sweep(seen: map<string, nat>, ttl: nat, now: nat): map<string, nat> {
    map n | n in seen && Age(now, seen[n]) < ttl :: seen[n]
  }

  datatype Verdict = Verdict(accepted: bool, seen: map<string, nat>)

  function Check(seen: map<string, nat>, ttl: nat, nonce: string, now: nat): Verdict {
    var kept := Sweep(seen, ttl, now);
    if nonce in kept then Verdict(false, kept) else Verdict(true, kept[nonce := now])
  }

  class Cache {
    const ttl: nat
    var seen: map<string, nat>

    constructor (ttl: nat)
      ensures this.ttl == ttl && seen == map[]
    {
      this.ttl := ttl;
      seen := map[];
    }

    method CheckAndRecord(nonce: string, now: nat) returns (accepted: bool)
      modifies this
      ensures Verdict(accepted, seen) == Check(old(seen), ttl, nonce, now)
    {
      seen := map n | n in seen && Age(now, seen[n]) < ttl :: seen[n];
      if nonce in seen {
        return false;
      }
      seen := seen[nonce := now];
      return true;
    }
  }

  // ---- The full log the cache stands for ----

  datatype Call = Call(nonce: string, now: nat)

  /** `nonce` was accepted less than `ttl` ago. */
  ghost predicate Recent(log: seq<Call>, ttl: nat, nonce: string, now: nat) {
    exists i :: 0 <= i < |log| && log[i].nonce == nonce && now - log[i].now < ttl
  }

  /** The reference: decide every call from the whole log of acceptances. */
  ghost function Log(ttl: nat, calls: seq<Call>): seq<Call> {
    if calls == [] then []
    else
      var log, c := Log(ttl, calls[..|calls| - 1]), calls[|calls| - 1];
      if Recent(log, ttl, c.nonce, c.now) then log else log + [c]
  }

  /** The cache over the same calls. */
  function Seen(ttl: nat, calls: seq<Call>): map<string, nat> {
    if calls == [] then map[]
    else
      var c := calls[|calls| - 1];
      Check(Seen(ttl, calls[..|calls| - 1]), ttl, c.nonce, c.now).seen
  }

  function Accepts(ttl: nat, calls: seq<Call>): seq<Call> {
    if calls == [] then []
    else
      var front, c := calls[..|calls| - 1], calls[|calls| - 1];
      if Check(Seen(ttl, front), ttl, c.nonce, c.now).accepted then Accepts(ttl, front) + [c] else Accepts(ttl, front)
  }

  /** The cache holds a log of acceptances no later than `last`: every entry is
      an acceptance, and every acceptance not yet expired is covered. */
  ghost predicate Holds(seen: map<string, nat>, log: seq<Call>, ttl: nat, last: nat) {
    && (forall n :: n in seen ==> Call(n, seen[n]) in log)
    && (forall i :: 0 <= i < |log| ==>
          && log[i].now <= last
          && (last - log[i].now < ttl ==> log[i].nonce in seen && log[i].now <= seen[log[i].nonce]))
  }

  lemma SweepIsRecent(seen: map<string, nat>, log: seq<Call>, ttl: nat, last: nat, now: nat)
    requires Holds(seen, log, ttl, last) && last <= now
    ensures forall n :: n in Sweep(seen, ttl, now) <==> Recent(log, ttl, n, now)
  {
    forall n
      ensures n in Sweep(seen, ttl, now) <==> Recent(log, ttl, n, now)
    {
      if n in Sweep(seen, ttl, now) {
        assert Call(n, seen[n]) in log;
        var i :| 0 <= i < |log| && log[i] == Call(n, seen[n]);
        assert log[i].nonce == n && now - log[i].now < ttl;
      }
    }
  }

  /** One call decides as the log would, and the cache goes on holding it. */
  lemma CheckKeepsLog(seen: map<string, nat>, log: seq<Call>, ttl: nat, last: nat, c: Call)
    requires Holds(seen, log, ttl, last) && last <= c.now
    ensures var v := Check(seen, ttl, c.nonce, c.now);
            && (v.accepted <==> !Recent(log, ttl, c.nonce, c.now))
            && Holds(v.seen, if v.accepted then log + [c] else log, ttl, c.now)
  {
    SweepIsRecent(seen, log, ttl, last, c.now);
    var v := Check(seen, ttl, c.nonce, c.now);
    var log' := if v.accepted then log + [c] else log;
    assert forall i :: 0 <= i < |log| ==> log'[i] == log[i];
    assert v.accepted ==> log'[|log|] == c;
    forall n | n in v.seen
      ensures Call(n, v.seen[n]) in log'
    {
      if !(v.accepted && n == c.nonce) {
        assert Call(n, seen[n]) in log;
      }
    }
  }

  ghost predicate Ordered(calls: seq<Call>) {
    forall i, j :: 0 <= i < j < |calls| ==> calls[i].now <= calls[j].now
  }

  function LastTime(calls: seq<Call>): nat {
    if calls == [] then 0 else calls[|calls| - 1].now
  }

  lemma {:induction false} CacheHoldsLog(ttl: nat, calls: seq<Call>)
    requires Ordered(calls)
    ensures Accepts(ttl, calls) == Log(ttl, calls)
    ensures Holds(Seen(ttl, calls), Log(ttl, calls), ttl, LastTime(calls))
  {
    if calls != [] {
      var front := calls[..|calls| - 1];
      CacheHoldsLog(ttl, front);
      hide Holds, Check, Recent;
      CheckKeepsLog(Seen(ttl, front), Log(ttl, front), ttl, LastTime(front), calls[|calls| - 1]);
    }
  }

  /** For every sequence of calls at non-decreasing times the swept cache
      accepts what the unbounded log would, and after each call it holds exactly
      the nonces accepted less than `ttl` ago. */
  lemma CacheRefinesLog(ttl: nat, calls: seq<Call>)
    requires Ordered(calls)
    ensures Accepts(ttl, calls) == Log(ttl, calls)
    ensures ttl > 0 ==> forall n :: n in Seen(ttl, calls) <==> Recent(Log(ttl, calls), ttl, n, LastTime(calls))
  {
    CacheHoldsLog(ttl, calls);
    var seen, log, now := Seen(ttl, calls), Log(ttl, calls), LastTime(calls);
    SweepIsRecent(seen, log, ttl, now, now);
    if ttl > 0 {
      assert Sweep(seen, ttl, now) == seen;
    }
  }
}
