/** The daemon's self-healing requests to the engine. */
module Provision {
  import opened Basics
  import opened Managed
  import opened Docker

  /** Force-removes a container by name or id; one already gone is fine. */
  method RemoveByName(d: Engine, ref: string, mood: Mood) returns (ok: bool)
    modifies d`containers, d`removals
    ensures d.removals == old(d.removals) + 1
    ensures d.containers ==
            if Acts(mood) then old(d.containers) - Addressed(old(d.containers), ref) else old(d.containers)
    ensures ok <==> mood.Works? || ((mood.Says? || mood.Misreports?) && mood.status in {204, 404})
  {
    var r := d.Delete(ref, mood);
    ok := r.Answer? && (r.status == 204 || r.status == 404);
  }

  /** The engine's answers to one create: to its POSTs, its pull, its removal. */
  datatype Answers = Answers(posts: seq<Mood>, pull: Mood, removal: Mood)

  predicate AllWork(a: Answers) {
    && (forall i :: 0 <= i < |a.posts| ==> a.posts[i].Works?)
    && a.pull.Works? && a.removal.Works?
  }

  /** The wanted name is held by a container, and is the id of another one: a
      removal by that name hits the other one. */
  predicate HitsAnother(cs: Containers, name: string) {
    name in cs && Holders(cs, name) - {name} != {}
  }

  lemma ClearedExactly(cs: Containers, name: string)
    ensures HitsAnother(cs, name) ==>
              Holders(cs, name) != {} && Addressed(cs, name) == {name} && Holders(cs - {name}, name) != {}
    ensures !HitsAnother(cs, name) && Holders(cs, name) != {} ==> Addressed(cs, name) == Holders(cs, name)
    ensures Holders(cs - Holders(cs, name), name) == {}
    ensures Holders(cs, name) == {} ==> cs - Holders(cs, name) == cs
  {
    if HitsAnother(cs, name) {
      var x :| x in Holders(cs, name) - {name};
      assert x in Holders(cs - {name}, name);
    }
  }

  /** Of the containers before, only those the name addresses may be gone, and
      besides them there are only new ones. */
  ghost predicate Framed(before: Containers, now: Containers, name: string, news: set<string>) {
    && (forall id :: id in now && id !in news ==> id in before && now[id] == before[id])
    && (forall id :: id in before && id !in Addressed(before, name) ==> id in now)
  }

  lemma NewIsFramed(before: Containers, now: Containers, name: string, news: set<string>, id: string, c: Container)
    requires Framed(before, now, name, news) && id in news
    ensures Framed(before, now[id := c], name, news)
  {
    hide Addressed;
  }

  lemma RemovalIsFramed(before: Containers, now: Containers, name: string, news: set<string>)
    requires Framed(before, now, name, news) && news !! before.Keys && before.Keys <= now.Keys
    ensures Framed(before, now - Addressed(now, name), name, news)
  {
    forall id | id in before && id !in Addressed(before, name)
      ensures id !in Addressed(now, name)
    {
      assert id !in news && now[id] == before[id];
    }
  }

  /** What one create makes of the containers if the engine works. */
  function Cleared(before: Containers, name: string, cleared: bool): Containers {
    if cleared then before - Addressed(before, name) else before
  }

  /** How a working engine answers a POST in the course of a create. */
  lemma WorkingPost(before: Containers, images: set<string>, spec: Spec, imageFirst: bool, pulled: bool, cleared: bool)
    requires pulled ==> spec.image in images
    requires cleared ==> Holders(before, spec.name) != {}
    ensures var o := CreateOutcome(images, Cleared(before, spec.name, cleared), spec, imageFirst);
            && o.Answer?
            && match o.status
               case 201 =>
                 && o == Answer(201, "") && spec.image in images && !HitsAnother(before, spec.name)
                 && Cleared(before, spec.name, cleared) == before - Holders(before, spec.name)
               case 404 => !pulled
               case 409 =>
                 && spec.name != "" && Holders(before, spec.name) != {}
                 && (cleared ==> HitsAnother(before, spec.name) && Addressed(before, spec.name) == {spec.name})
               case _ => false
  {
    ClearedExactly(before, spec.name);
    NamelessHasNoHolders(before);
    hide Holders, Addressed, HitsAnother;
  }

  lemma NamelessHasNoHolders(cs: Containers)
    ensures Holders(cs, "") == {}
  {
  }

  /** The engine while a create goes on: what the name addresses may be gone, if
      a removal has been carried out, and new containers may be there; a working
      engine has the former containers and no others. */
  ghost predicate Going(before: Containers, spec: Spec, a: Answers, news: set<string>, pulled: bool, cleared: bool,
                        images: set<string>, now: Containers) {
    && Framed(before, now, spec.name, news)
    && (before.Keys <= now.Keys || (cleared && Acts(a.removal)))
    && (AllWork(a) ==>
          && now == Cleared(before, spec.name, cleared)
          && (pulled ==> spec.image in images)
          && (cleared ==> Holders(before, spec.name) != {}))
  }

  lemma PostGoes(before: Containers, spec: Spec, a: Answers, news: set<string>, pulled: bool, cleared: bool,
                 images: set<string>, now: Containers, mood: Mood, id: string, r: Reply, after: Containers)
    requires Going(before, spec, a, news, pulled, cleared, images, now) && id in news && (AllWork(a) ==> mood.Works?)
    requires Posted(images, now, spec, id, mood, r, after)
    ensures Framed(before, after, spec.name, news) && (before.Keys <= after.Keys || (cleared && Acts(a.removal)))
    ensures r.NoAnswer? || r.status != 201 ==> Going(before, spec, a, news, pulled, cleared, images, after)
    ensures AllWork(a) ==>
              && r.Answer?
              && match r.status
                 case 201 =>
                   && spec.image in images && !HitsAnother(before, spec.name)
                   && after == (before - Holders(before, spec.name))[id := Created(spec)]
                 case 404 => !pulled
                 case 409 =>
                   && spec.name != "" && Holders(before, spec.name) != {}
                   && (cleared ==> HitsAnother(before, spec.name) && after == before - {spec.name})
                 case _ => false
  {
    hide Framed, Created, Holders, Addressed, HitsAnother, CreateOutcome;
    NewIsFramed(before, now, spec.name, news, id, Created(spec));
    if AllWork(a) {
      WorkingPost(before, images, spec, mood.imageFirst, pulled, cleared);
    }
  }

  lemma RemovalGoes(before: Containers, spec: Spec, a: Answers, news: set<string>, pulled: bool,
                    images: set<string>, now: Containers)
    requires Going(before, spec, a, news, pulled, false, images, now) && news !! before.Keys
    requires AllWork(a) ==> Holders(before, spec.name) != {}
    ensures var after := if Acts(a.removal) then now - Addressed(now, spec.name) else now;
            Going(before, spec, a, news, pulled, true, images, after)
  {
    hide Framed, Holders, Addressed;
    RemovalIsFramed(before, now, spec.name, news);
  }

  lemma PullGoes(before: Containers, spec: Spec, a: Answers, news: set<string>, cleared: bool,
                 images: set<string>, now: Containers)
    requires Going(before, spec, a, news, false, cleared, images, now)
    ensures Going(before, spec, a, news, true, cleared, images + {spec.image}, now)
    ensures !AllWork(a) ==> Going(before, spec, a, news, true, cleared, images, now)
  {
    hide Framed, Holders, Cleared;
  }

  lemma GoingStarts(before: Containers, spec: Spec, a: Answers, news: set<string>, images: set<string>)
    ensures Going(before, spec, a, news, false, false, images, before)
  {
  }

  lemma Stays(before: Containers, spec: Spec, a: Answers, news: set<string>, pulled: bool, cleared: bool,
              images: set<string>, now: Containers)
    requires Going(before, spec, a, news, pulled, cleared, images, now)
    ensures Framed(before, now, spec.name, news) && (before.Keys <= now.Keys || (cleared && Acts(a.removal)))
  {
  }

  lemma AllAnswersWork(a: Answers)
    ensures AllWork(a) ==>
              && PullHeard(a) && RemovalHeard(a) && Acts(a.pull) && Acts(a.removal)
              && forall n :: 0 <= n < |a.posts| ==> a.posts[n].Works?
  {
  }

  lemma HeardMeans(a: Answers)
    ensures PullHeard(a) <==> Heard(a.pull, Answer(200, "")) == Answer(200, "")
    ensures RemovalHeard(a) <==>
            a.removal.Works? || ((a.removal.Says? || a.removal.Misreports?) && a.removal.status in {204, 404})
  {
  }

  /** One of the answers has that status. */
  ghost predicate Saw(answers: seq<Reply>, status: int) {
    exists i :: 0 <= i < |answers| && answers[i].Answer? && answers[i].status == status
  }

  lemma SawSnoc(answers: seq<Reply>, r: Reply, status: int)
    ensures Saw(answers + [r], status) <==> Saw(answers, status) || (r.Answer? && r.status == status)
  {
    var all := answers + [r];
    assert all[|answers|] == r;
    assert forall i :: 0 <= i < |answers| ==> all[i] == answers[i];
  }

  lemma SawNothing()
    ensures !Saw([], 404) && !Saw([], 409)
  {
  }

  /** The course of a create, by the answers to its POSTs: it goes on after a 404,
      with a pull, and after a 409 to a name, with a removal, once each; it ends
      well with a 201. */
  ghost predicate Course(answers: seq<Reply>, name: string, a: Answers, pulls: nat, removals: nat, ok: bool) {
    && 1 <= |answers| <= 3
    && (ok <==> answers[|answers| - 1].Answer? && answers[|answers| - 1].status == 201)
    && (forall i :: 0 <= i < |answers| - 1 ==> answers[i].Answer? && answers[i].status in {404, 409})
    && (forall i :: 0 <= i < |answers| && i < |a.posts| && !a.posts[i].Works? ==>
          answers[i] == Heard(a.posts[i], NoAnswer))
    && pulls == (if Saw(answers, 404) then 1 else 0)
    && removals == (if name != "" && Saw(answers, 409) then 1 else 0)
    && (ok ==> |answers| == 1 + pulls + removals)
    && (ok && pulls == 1 ==> Heard(a.pull, Answer(200, "")) == Answer(200, ""))
    && (ok && removals == 1 ==>
          a.removal.Works? || ((a.removal.Says? || a.removal.Misreports?) && a.removal.status in {204, 404}))
  }

  /** The retry loop. Whatever the engine answers and does, it makes at most three
      POSTs, one pull and one removal, and touches no container but the ones the
      wanted name addresses and new ones. If the engine works, the container is
      created, however often image and name get in the way, unless the name is
      another container's id: that one is removed and the create fails. */
  method CreateContainer(d: Engine, spec: Spec, newIds: seq<string>, a: Answers) returns (ok: bool)
    requires |newIds| == |a.posts| == 3 && forall i :: 0 <= i < 3 ==> newIds[i] !in d.containers
    modifies d
    ensures old(d.replies) <= d.replies && d.pulls >= old(d.pulls) && d.removals >= old(d.removals)
    ensures Course(d.replies[|old(d.replies)|..], spec.name, a,
                   d.pulls - old(d.pulls), d.removals - old(d.removals), ok)
    ensures old(d.images) <= d.images <= old(d.images) + {spec.image}
    ensures forall id :: id in old(d.containers) && id !in Addressed(old(d.containers), spec.name) ==>
              id in d.containers
    ensures forall id :: id in d.containers && id !in newIds ==>
              id in old(d.containers) && d.containers[id] == old(d.containers)[id]
    ensures !Acts(a.removal) ==> forall id :: id in old(d.containers) ==> id in d.containers
    ensures AllWork(a) ==> (ok <==> !HitsAnother(old(d.containers), spec.name))
    ensures AllWork(a) && ok ==>
              && d.images == old(d.images) + {spec.image}
              && d.containers == (old(d.containers) - Holders(old(d.containers), spec.name))
                                   [newIds[|d.replies| - |old(d.replies)| - 1] := Created(spec)]
    ensures AllWork(a) && !ok ==> d.containers == old(d.containers) - {spec.name}
  {
    ok := false;
    var pulled, cleared, more, n := false, false, true, 0;
    ghost var before, images, answers: seq<Reply> := d.containers, d.images, [];
    CreateBegins(before, images, spec, a, newIds);
    hide *;
    while more
      invariant |answers| == n <= 3 && d.replies == old(d.replies) + answers
      invariant more ==>
                  && d.pulls == old(d.pulls) + (if pulled then 1 else 0)
                  && d.removals == old(d.removals) + (if cleared then 1 else 0)
                  && n == (if pulled then 1 else 0) + (if cleared then 1 else 0)
                  && Ongoing(before, images, spec, newIds, a, answers, pulled, cleared, d.images, d.containers)
      invariant !more ==>
                  Finished(before, images, spec, newIds, a, answers,
                           d.pulls - old(d.pulls), d.removals - old(d.removals), ok, d.images, d.containers)
      decreases more, 3 - n
    {
      ghost var r: Reply;
      more, ok, pulled, cleared, r := Attempt(d, spec, newIds, a, n, pulled, cleared, before, images, answers);
      Concat3(old(d.replies), answers, [r]);
      answers := answers + [r];
      n := n + 1;
    }
    Behind(old(d.replies), answers);
    FinishedMeans(before, images, spec, newIds, a, answers, d.pulls - old(d.pulls), d.removals - old(d.removals), ok,
                  d.images, d.containers);
  }

  /** One pass of the loop: a POST, and what its answer calls for. */
  method Attempt(d: Engine, spec: Spec, newIds: seq<string>, a: Answers, n: nat, pulled: bool, cleared: bool,
                 ghost before: Containers, ghost images: set<string>, ghost answers: seq<Reply>)
    returns (more: bool, ok: bool, pulled': bool, cleared': bool, ghost r: Reply)
    requires |newIds| == |a.posts| == 3
    requires |answers| == n == (if pulled then 1 else 0) + (if cleared then 1 else 0)
    requires Ongoing(before, images, spec, newIds, a, answers, pulled, cleared, d.images, d.containers)
    modifies d
    ensures d.replies == old(d.replies) + [r]
    ensures more ==>
              && n + 1 == (if pulled' then 1 else 0) + (if cleared' then 1 else 0)
              && d.pulls == old(d.pulls) + (if pulled' then 1 else 0) - (if pulled then 1 else 0)
              && d.removals == old(d.removals) + (if cleared' then 1 else 0) - (if cleared then 1 else 0)
              && Ongoing(before, images, spec, newIds, a, answers + [r], pulled', cleared', d.images, d.containers)
    ensures !more ==>
              Finished(before, images, spec, newIds, a, answers + [r],
                       d.pulls - old(d.pulls) + (if pulled then 1 else 0),
                       d.removals - old(d.removals) + (if cleared then 1 else 0), ok, d.images, d.containers)
  {
    hide *;
    more, ok, pulled', cleared' := false, false, pulled, cleared;
    ghost var now := d.containers;
    var answer := d.PostCreate(spec, newIds[n], a.posts[n]);
    r := answer;
    if answer.Answer? && answer.status == 404 && !pulled {
      CreatePulls(before, images, spec, newIds, a, answers, cleared, d.images, now, r, d.containers);
      answer := d.Pull(spec.image, a.pull);
      more, pulled' := answer == Answer(200, ""), true;
    } else if answer.Answer? && answer.status == 409 && !cleared && spec.name != "" {
      CreateRemoves(before, images, spec, newIds, a, answers, pulled, d.images, now, r, d.containers);
      more := RemoveByName(d, spec.name, a.removal);
      cleared' := true;
    } else {
      CreateEnds(before, images, spec, newIds, a, answers, pulled, cleared, d.images, now, r, d.containers);
      ok := answer.Answer? && answer.status == 201;
    }
  }

  lemma Behind(was: seq<Reply>, answers: seq<Reply>)
    ensures was <= was + answers && (was + answers)[|was|..] == answers
  {
  }

  function NewIds(newIds: seq<string>): set<string> {
    set id | id in newIds
  }

  /** A create between two POSTs. */
  ghost predicate Ongoing(before: Containers, images: set<string>, spec: Spec, newIds: seq<string>, a: Answers,
                          answers: seq<Reply>, pulled: bool, cleared: bool, images': set<string>, now: Containers) {
    && |newIds| == |a.posts| == 3 && NewIds(newIds) !! before.Keys
    && |answers| == (if pulled then 1 else 0) + (if cleared then 1 else 0)
    && Asked(answers, |answers|, spec.name, a, pulled, cleared)
    && Going(before, spec, a, NewIds(newIds), pulled, cleared, images', now)
    && images <= images' <= images + {spec.image}
  }

  /** A create that is over. */
  ghost predicate Finished(before: Containers, images: set<string>, spec: Spec, newIds: seq<string>, a: Answers,
                           answers: seq<Reply>, pulls: int, removals: int, ok: bool,
                           images': set<string>, now: Containers) {
    && pulls >= 0 && removals >= 0 && Course(answers, spec.name, a, pulls, removals, ok)
    && images <= images' <= images + {spec.image}
    && Framed(before, now, spec.name, NewIds(newIds))
    && (!Acts(a.removal) ==> before.Keys <= now.Keys)
    && (AllWork(a) ==>
          && (ok <==> !HitsAnother(before, spec.name))
          && (ok ==> |answers| <= |newIds| && images' == images + {spec.image} &&
                     now == (before - Holders(before, spec.name))[newIds[|answers| - 1] := Created(spec)])
          && (!ok ==> now == before - {spec.name}))
  }

  lemma CreateBegins(before: Containers, images: set<string>, spec: Spec, a: Answers, newIds: seq<string>)
    requires |newIds| == |a.posts| == 3 && forall i :: 0 <= i < 3 ==> newIds[i] !in before
    ensures Ongoing(before, images, spec, newIds, a, [], false, false, images, before)
  {
    AskedNothing(spec.name, a);
    GoingStarts(before, spec, a, NewIds(newIds), images);
  }

  lemma CreateEnds(before: Containers, images: set<string>, spec: Spec, newIds: seq<string>, a: Answers,
                   answers: seq<Reply>, pulled: bool, cleared: bool, images': set<string>, now: Containers,
                   r: Reply, after: Containers)
    requires Ongoing(before, images, spec, newIds, a, answers, pulled, cleared, images', now) && |answers| < 3
    requires Posted(images', now, spec, newIds[|answers|], a.posts[|answers|], r, after)
    requires r.Answer? ==> !(r.status == 404 && !pulled) && !(r.status == 409 && !cleared && spec.name != "")
    ensures Finished(before, images, spec, newIds, a, answers + [r], if pulled then 1 else 0, if cleared then 1 else 0,
                     r.Answer? && r.status == 201, images', after)
  {
    var n := |answers|;
    AllAnswersWork(a);
    PostAnswers(images', now, spec, newIds[n], a.posts[n], r, after);
    PostGoes(before, spec, a, NewIds(newIds), pulled, cleared, images', now, a.posts[n], newIds[n], r, after);
    AskedOne(answers, n, spec.name, a, pulled, cleared, r);
    hide Framed, Going, Asked, Course, Posted, AllWork, Holders, HitsAnother, Created;
  }

  lemma CreatePulls(before: Containers, images: set<string>, spec: Spec, newIds: seq<string>, a: Answers,
                    answers: seq<Reply>, cleared: bool, images': set<string>, now: Containers,
                    r: Reply, after: Containers)
    requires Ongoing(before, images, spec, newIds, a, answers, false, cleared, images', now) && |answers| < 3
    requires Posted(images', now, spec, newIds[|answers|], a.posts[|answers|], r, after)
    requires r.Answer? && r.status == 404
    ensures var images'' := if Acts(a.pull) then images' + {spec.image} else images';
            if Heard(a.pull, Answer(200, "")) == Answer(200, "") then
              Ongoing(before, images, spec, newIds, a, answers + [r], true, cleared, images'', after)
            else
              Finished(before, images, spec, newIds, a, answers + [r], 1, if cleared then 1 else 0, false,
                       images'', after)
  {
    var n := |answers|;
    AllAnswersWork(a);
    PostAnswers(images', now, spec, newIds[n], a.posts[n], r, after);
    PostGoes(before, spec, a, NewIds(newIds), false, cleared, images', now, a.posts[n], newIds[n], r, after);
    PullGoes(before, spec, a, NewIds(newIds), cleared, images', after);
    AskedOne(answers, n, spec.name, a, false, cleared, r);
    hide Framed, Going, Asked, Course, Posted, AllWork, Holders, HitsAnother, Created;
  }

  lemma CreateRemoves(before: Containers, images: set<string>, spec: Spec, newIds: seq<string>, a: Answers,
                      answers: seq<Reply>, pulled: bool, images': set<string>, now: Containers,
                      r: Reply, after: Containers)
    requires Ongoing(before, images, spec, newIds, a, answers, pulled, false, images', now) && |answers| < 3
    requires Posted(images', now, spec, newIds[|answers|], a.posts[|answers|], r, after)
    requires r.Answer? && r.status == 409 && spec.name != ""
    ensures var left := if Acts(a.removal) then after - Addressed(after, spec.name) else after;
            if a.removal.Works? || ((a.removal.Says? || a.removal.Misreports?) && a.removal.status in {204, 404}) then
              Ongoing(before, images, spec, newIds, a, answers + [r], pulled, true, images', left)
            else
              Finished(before, images, spec, newIds, a, answers + [r], if pulled then 1 else 0, 1, false, images', left)
  {
    var n := |answers|;
    AllAnswersWork(a);
    PostAnswers(images', now, spec, newIds[n], a.posts[n], r, after);
    PostGoes(before, spec, a, NewIds(newIds), pulled, false, images', now, a.posts[n], newIds[n], r, after);
    RemovalGoes(before, spec, a, NewIds(newIds), pulled, images', after);
    AskedOne(answers, n, spec.name, a, pulled, false, r);
    var left := if Acts(a.removal) then after - Addressed(after, spec.name) else after;
    Stays(before, spec, a, NewIds(newIds), pulled, true, images', left);
    hide Framed, Going, Asked, Course, Posted, AllWork, Holders, HitsAnother, Created, Addressed;
  }

  lemma FinishedMeans(before: Containers, images: set<string>, spec: Spec, newIds: seq<string>, a: Answers,
                      answers: seq<Reply>, pulls: int, removals: int, ok: bool, images': set<string>, now: Containers)
    requires Finished(before, images, spec, newIds, a, answers, pulls, removals, ok, images', now)
    ensures pulls >= 0 && removals >= 0 && Course(answers, spec.name, a, pulls, removals, ok)
    ensures images <= images' <= images + {spec.image}
    ensures forall id :: id in before && id !in Addressed(before, spec.name) ==> id in now
    ensures forall id :: id in now && id !in newIds ==> id in before && now[id] == before[id]
    ensures !Acts(a.removal) ==> forall id :: id in before ==> id in now
    ensures AllWork(a) ==> (ok <==> !HitsAnother(before, spec.name))
    ensures AllWork(a) && ok ==>
              && 0 < |answers| <= |newIds| && images' == images + {spec.image}
              && now == (before - Holders(before, spec.name))[newIds[|answers| - 1] := Created(spec)]
    ensures AllWork(a) && !ok ==> now == before - {spec.name}
  {
    hide Holders, HitsAnother, Created, AllWork, Addressed;
  }

  /** The answers while a create goes on. */
  ghost predicate Asked(answers: seq<Reply>, n: nat, name: string, a: Answers, pulled: bool, cleared: bool) {
    && |answers| == n
    && (forall i :: 0 <= i < n ==> answers[i].Answer? && answers[i].status in {404, 409})
    && (forall i :: 0 <= i < n && i < |a.posts| && !a.posts[i].Works? ==> answers[i] == Heard(a.posts[i], NoAnswer))
    && (Saw(answers, 404) <==> pulled) && (Saw(answers, 409) <==> cleared) && (cleared ==> name != "")
    && (pulled ==> Heard(a.pull, Answer(200, "")) == Answer(200, ""))
    && (cleared ==> a.removal.Works? || ((a.removal.Says? || a.removal.Misreports?) && a.removal.status in {204, 404}))
  }

  lemma AskedNothing(name: string, a: Answers)
    ensures Asked([], 0, name, a, false, false)
  {
    SawNothing();
  }

  ghost predicate PullHeard(a: Answers) {
    Heard(a.pull, Answer(200, "")) == Answer(200, "")
  }

  ghost predicate RemovalHeard(a: Answers) {
    a.removal.Works? || ((a.removal.Says? || a.removal.Misreports?) && a.removal.status in {204, 404})
  }

  /** One answer more: the create ends, or goes on after a pull or a removal. */
  lemma AskedOne(answers: seq<Reply>, n: nat, name: string, a: Answers, pulled: bool, cleared: bool, r: Reply)
    requires Asked(answers, n, name, a, pulled, cleared) && |a.posts| == 3
    requires n == (if pulled then 1 else 0) + (if cleared then 1 else 0)
    requires !a.posts[n].Works? ==> r == Heard(a.posts[n], NoAnswer)
    ensures var all := answers + [r];
            var p, c := if pulled then 1 else 0, if cleared then 1 else 0;
            if r.Answer? && r.status == 201 then Course(all, name, a, p, c, true)
            else if r.Answer? && r.status == 404 && !pulled then
              && Course(all, name, a, 1, c, false)
              && (PullHeard(a) ==> Asked(all, n + 1, name, a, true, cleared))
            else if r.Answer? && r.status == 409 && !cleared && name != "" then
              && Course(all, name, a, p, 1, false)
              && (RemovalHeard(a) ==> Asked(all, n + 1, name, a, pulled, true))
            else Course(all, name, a, p, c, false)
  {
    hide Saw;
    var all := answers + [r];
    SawSnoc(answers, r, 404);
    SawSnoc(answers, r, 409);
    assert forall i :: 0 <= i < n ==> all[i] == answers[i];
    assert all[n] == r;
  }

  lemma PostAnswers(images: set<string>, before: Containers, spec: Spec, newId: string, mood: Mood,
                    r: Reply, after: Containers)
    requires Posted(images, before, spec, newId, mood, r, after)
    ensures !mood.Works? ==> r == Heard(mood, NoAnswer)
  {
  }

  /** The input: a container named like another one's id. */
  lemma NameHitsAnother(c: Container, other: Container)
    requires c.spec.name == "a" && other.spec.name == "b"
    ensures var cs := map["a" := other, "x" := c]; HitsAnother(cs, "a") && Addressed(cs, "a") == {"a"}
  {
    var cs := map["a" := other, "x" := c];
    assert "x" in cs && cs["x"] == c;
    assert "x" in Holders(cs, "a") && "x" in Holders(cs, "a") - {"a"};
  }

  // ---- Freeing ports ----

  function ServerOf(it: Item): Option<string> {
    ServerIdFrom(it.names, it.labels)
  }

  /** The server the listing gives for `target`. */
  function TargetServer(items: seq<Item>, target: string): Option<string> {
    if items == [] then None
    else if items[0].id == target then ServerOf(items[0])
    else TargetServer(items[1..], target)
  }

  /** Two lists of port numbers have one in common. */
  predicate Shares(published: seq<Option<nat>>, wanted: seq<nat>) {
    exists i :: 0 <= i < |published| && published[i].Some? && published[i].value in wanted
  }

  /** A listed container the pass may remove: not the target, publishing a port of
      a wanted number, one of ours, and either the same server's or not running. */
  ghost predicate Eligible(it: Item, target: string, targetServer: Option<string>, wanted: seq<nat>) {
    && it.id != target
    && (exists i, j :: 0 <= i < |it.ports| && 0 <= j < |wanted| && it.ports[i] == Some(wanted[j]))
    && (exists server :: Identifies(it.names, it.labels, server) &&
          (targetServer == Some(server) || !ReadsRunning(it.state)))
  }

  lemma SharesExactly(ports: seq<Option<nat>>, wanted: seq<nat>)
    ensures Shares(ports, wanted) <==>
            exists i, j :: 0 <= i < |ports| && 0 <= j < |wanted| && ports[i] == Some(wanted[j])
  {
    if Shares(ports, wanted) {
      var i :| 0 <= i < |ports| && ports[i].Some? && ports[i].value in wanted;
      var j :| 0 <= j < |wanted| && wanted[j] == ports[i].value;
      assert ports[i] == Some(wanted[j]);
    }
  }

  /** The test the pass makes. */
  lemma EligibleExactly(it: Item, target: string, targetServer: Option<string>, wanted: seq<nat>)
    ensures Eligible(it, target, targetServer, wanted) <==>
            && it.id != target && Shares(it.ports, wanted) && ServerOf(it).Some?
            && (ServerOf(it) == targetServer || !IsRunning(it.state))
  {
    SharesExactly(it.ports, wanted);
    IsRunningExactly(it.state);
    hide Shares, IsRunning, ReadsRunning, Identifies, ServerIdFrom;
    forall server
      ensures Identifies(it.names, it.labels, server) <==> ServerOf(it) == Some(server)
    {
      ServerIdExactly(it.names, it.labels, server);
    }
    if ServerOf(it).Some? {
      assert Identifies(it.names, it.labels, ServerOf(it).value);
    }
  }

  ghost predicate Condemned(items: seq<Item>, target: string, wanted: seq<nat>, id: string) {
    exists k :: 0 <= k < |items| && items[k].id == id && Eligible(items[k], target, TargetServer(items, target), wanted)
  }

  /** No id of the listing can be taken for a name: none is one, or it is listed
      once and still there. */
  ghost predicate Addressable(cs: Containers, items: seq<Item>) {
    forall k :: 0 <= k < |items| ==> Holders(cs, items[k].id) == {} || Sole(cs, items, k)
  }

  ghost predicate Sole(cs: Containers, items: seq<Item>, k: nat)
    requires k < |items|
  {
    items[k].id in cs && forall j :: 0 <= j < |items| && j != k ==> items[j].id != items[k].id
  }

  lemma AddressesOnly(before: Containers, now: Containers, id: string)
    requires forall x :: x in now ==> x in before && now[x] == before[x]
    requires Holders(before, id) == {} || id in now
    ensures Addressed(now, id) <= {id} && (id in now ==> Addressed(now, id) == {id})
  {
    assert Holders(now, id) <= Holders(before, id);
  }

  /** Condemned by one of the first `k` rows, and really removed. */
  ghost predicate Doomed(items: seq<Item>, k: nat, target: string, wanted: seq<nat>, removals: string -> Mood,
                         id: string)
    requires k <= |items|
  {
    Acts(removals(id)) &&
    exists i :: 0 <= i < k && items[i].id == id && Eligible(items[i], target, TargetServer(items, target), wanted)
  }

  lemma DoomedSnoc(items: seq<Item>, k: nat, target: string, wanted: seq<nat>, removals: string -> Mood, id: string)
    requires k < |items|
    ensures Doomed(items, k + 1, target, wanted, removals, id) <==>
            || Doomed(items, k, target, wanted, removals, id)
            || (&& Acts(removals(id)) && items[k].id == id
                && Eligible(items[k], target, TargetServer(items, target), wanted))
  {
    hide Eligible, TargetServer;
  }

  lemma DoomedByAll(items: seq<Item>, target: string, wanted: seq<nat>, removals: string -> Mood, id: string)
    ensures Doomed(items, |items|, target, wanted, removals, id) <==>
            Condemned(items, target, wanted, id) && Acts(removals(id))
  {
    hide Eligible, TargetServer;
  }

  lemma SoleIsThere(cs: Containers, items: seq<Item>, k: nat, target: string, wanted: seq<nat>,
                    removals: string -> Mood)
    requires k < |items| && Sole(cs, items, k)
    ensures !Doomed(items, k, target, wanted, removals, items[k].id)
  {
    hide Eligible, TargetServer;
  }

  /** The removal pass over any listing, current or not, whatever becomes of each
      removal: exactly the condemned containers whose removal is carried out are
      gone, and the others are as they were. */
  method RemoveConflicts(d: Engine, target: string, wanted: seq<nat>, items: seq<Item>, removals: string -> Mood)
    requires Addressable(d.containers, items)
    modifies d`containers, d`removals
    ensures forall id :: id in d.containers ==> id in old(d.containers) && d.containers[id] == old(d.containers)[id]
    ensures forall id :: id in old(d.containers) ==>
              (id !in d.containers <==> Condemned(items, target, wanted, id) && Acts(removals(id)))
  {
    hide ServerOf, IsRunning, Shares, Addressed, Holders, Doomed, Sole, Condemned, Acts, Eligible;
    var server := TargetServer(items, target);
    ghost var before := d.containers;
    var k := 0;
    NobodyDoomed(items, target, wanted, removals);
    while k < |items|
      invariant 0 <= k <= |items|
      invariant forall id :: id in d.containers ==> id in before && d.containers[id] == before[id]
      invariant forall id :: id in before ==>
                  (id !in d.containers <==> Doomed(items, k, target, wanted, removals, id))
    {
      var it := items[k];
      EligibleExactly(it, target, server, wanted);
      forall id
        ensures Doomed(items, k + 1, target, wanted, removals, id) <==>
                || Doomed(items, k, target, wanted, removals, id)
                || (Acts(removals(id)) && it.id == id && Eligible(it, target, server, wanted))
      {
        DoomedSnoc(items, k, target, wanted, removals, id);
      }
      if it.id != target && Shares(it.ports, wanted) {
        var sid := ServerOf(it);
        if sid.Some? && (sid == server || !IsRunning(it.state)) {
          if Holders(before, it.id) != {} {
            SoleMeans(before, items, k);
            SoleIsThere(before, items, k, target, wanted, removals);
          }
          AddressesOnly(before, d.containers, it.id);
          var _ := RemoveByName(d, it.id, removals(it.id));
        }
      }
      k := k + 1;
    }
    forall id
      ensures Doomed(items, k, target, wanted, removals, id) <==>
              Condemned(items, target, wanted, id) && Acts(removals(id))
    {
      DoomedByAll(items, target, wanted, removals, id);
    }
  }

  lemma NobodyDoomed(items: seq<Item>, target: string, wanted: seq<nat>, removals: string -> Mood)
    ensures forall id :: !Doomed(items, 0, target, wanted, removals, id)
  {
  }

  lemma SoleMeans(cs: Containers, items: seq<Item>, k: nat)
    requires k < |items| && Sole(cs, items, k)
    ensures items[k].id in cs
  {
  }

  /** Whose container it is, by the rule the listing is read with. */
  function Owner(c: Container): Option<string> {
    ServerIdFrom(["/" + c.spec.name], c.spec.labels)
  }

  lemma OwnerExactly(c: Container, server: string)
    ensures Owner(c) == Some(server) <==> Identifies(["/" + c.spec.name], c.spec.labels, server)
  {
    hide ServerIdFrom, Identifies;
    ServerIdExactly(["/" + c.spec.name], c.spec.labels, server);
  }

  /** A port of the same number, whatever the protocol. */
  ghost predicate SharesNumber(cs: Containers, target: string, id: string)
    requires target in cs && id in cs
  {
    exists i, j :: 0 <= i < |cs[id].published| && 0 <= j < |cs[target].spec.hostPorts| &&
      cs[id].published[i].number == Some(cs[target].spec.hostPorts[j].number)
  }

  /** A port that the engine would have to hand out twice. */
  predicate InTheWay(cs: Containers, target: string, id: string)
    requires target in cs && id in cs
  {
    id != target && Collides(cs[id].published, cs[target].spec.hostPorts)
  }

  lemma InTheWaySharesNumber(cs: Containers, target: string, id: string)
    requires target in cs && id in cs && InTheWay(cs, target, id)
    ensures SharesNumber(cs, target, id)
  {
    var published, wanted := cs[id].published, cs[target].spec.hostPorts;
    var i :| 0 <= i < |published| && published[i].number.Some? &&
             Port(published[i].number.value, published[i].protocol) in wanted;
    var j :| 0 <= j < |wanted| && wanted[j] == Port(published[i].number.value, published[i].protocol);
    assert published[i].number == Some(wanted[j].number);
  }

  /** The containers the daemon may remove for `target`, said of the engine: they
      publish a port of a wanted number, and are the daemon's own, of the same
      server or not running. */
  ghost predicate Victim(cs: Containers, target: string, id: string)
    requires target in cs && id in cs
  {
    && id != target && SharesNumber(cs, target, id)
    && (exists server :: Identifies(["/" + cs[id].spec.name], cs[id].spec.labels, server) &&
          (|| Identifies(["/" + cs[target].spec.name], cs[target].spec.labels, server)
           || !ReadsRunning(cs[id].state)))
  }

  /** In the way and not ours to remove. */
  ghost predicate Blocker(cs: Containers, target: string, id: string)
    requires target in cs && id in cs
  {
    InTheWay(cs, target, id) && !Victim(cs, target, id)
  }

  /** The daemon does not look at protocols: a container is removed without being
      in the way exactly if it could be removed at all and shares numbers only
      under other protocols. */
  lemma NeedlessExactly(cs: Containers, target: string, id: string)
    requires target in cs && id in cs
    ensures Victim(cs, target, id) && !InTheWay(cs, target, id) <==>
            && Victim(cs, target, id)
            && forall i, j :: 0 <= i < |cs[id].published| && 0 <= j < |cs[target].spec.hostPorts| ==>
                 (cs[id].published[i].number == Some(cs[target].spec.hostPorts[j].number) ==>
                    cs[id].published[i].protocol != cs[target].spec.hostPorts[j].protocol)
  {
    hide Identifies, ReadsRunning;
    var published, wanted := cs[id].published, cs[target].spec.hostPorts;
    if i, j :| 0 <= i < |published| && 0 <= j < |wanted| && published[i].number == Some(wanted[j].number) &&
               published[i].protocol == wanted[j].protocol {
      assert wanted[j] == Port(published[i].number.value, published[i].protocol);
      assert wanted[j] in wanted;
    }
  }

  /** The input: a stopped server's container on 53/udp, and a start on 53/tcp. */
  lemma OtherProtocolIsRemoved(target: Container, other: Container, server: string)
    requires target.spec.hostPorts == [Port(53, "tcp")] && other.published == [Published(Some(53), "udp")]
    requires Identifies(["/" + other.spec.name], other.spec.labels, server) && !ReadsRunning(other.state)
    ensures var cs := map["t" := target, "u" := other]; Victim(cs, "t", "u") && !InTheWay(cs, "t", "u")
  {
    hide Identifies, ReadsRunning;
    var cs := map["t" := target, "u" := other];
    assert cs["u"].published[0].number == Some(cs["t"].spec.hostPorts[0].number);
  }

  lemma {:induction false} TargetServerIsOwner(cs: Containers, items: seq<Item>, target: string)
    requires target in cs && Listed(items, target)
    requires forall i :: 0 <= i < |items| ==> items[i].id in cs && items[i] == ItemOf(items[i].id, cs[items[i].id])
    ensures TargetServer(items, target) == Owner(cs[target])
  {
    hide ServerIdFrom;
    if items[0].id != target {
      var i :| 0 <= i < |items| && items[i].id == target;
      assert items[1..][i - 1].id == target;
      TargetServerIsOwner(cs, items[1..], target);
    }
  }

  lemma ItemSharesNumber(cs: Containers, target: string, id: string)
    requires target in cs && id in cs
    ensures var ports, wanted := ItemOf(id, cs[id]).ports, HostNumbers(cs[target].spec.hostPorts);
            SharesNumber(cs, target, id) <==>
            exists i, j :: 0 <= i < |ports| && 0 <= j < |wanted| && ports[i] == Some(wanted[j])
  {
    var ports, wanted := ItemOf(id, cs[id]).ports, HostNumbers(cs[target].spec.hostPorts);
    if SharesNumber(cs, target, id) {
      var i, j :| 0 <= i < |cs[id].published| && 0 <= j < |cs[target].spec.hostPorts| &&
                  cs[id].published[i].number == Some(cs[target].spec.hostPorts[j].number);
      assert ports[i] == Some(wanted[j]);
    }
  }

  lemma EligibleIsVictim(cs: Containers, target: string, id: string)
    requires target in cs && id in cs
    ensures Eligible(ItemOf(id, cs[id]), target, Owner(cs[target]), HostNumbers(cs[target].spec.hostPorts)) <==>
            Victim(cs, target, id)
  {
    ItemSharesNumber(cs, target, id);
    hide Identifies, ReadsRunning, Owner, SharesNumber;
    forall server
      ensures Owner(cs[target]) == Some(server) <==>
              Identifies(["/" + cs[target].spec.name], cs[target].spec.labels, server)
    {
      OwnerExactly(cs[target], server);
    }
  }

  lemma CondemnedIsVictim(cs: Containers, items: seq<Item>, target: string, id: string)
    requires target in cs && id in cs && Lists(cs, items)
    ensures Condemned(items, target, HostNumbers(cs[target].spec.hostPorts), id) <==> Victim(cs, target, id)
  {
    TargetServerIsOwner(cs, items, target);
    EligibleIsVictim(cs, target, id);
    hide Eligible, Victim, Owner, TargetServer, HostNumbers, Numbers;
    assert Listed(items, id);
    var k :| 0 <= k < |items| && items[k].id == id;
    assert forall i :: 0 <= i < |items| && items[i].id == id ==> i == k;
  }

  /** Answers to one start: the two POSTs, inspect, list, and the removal of each
      container. */
  datatype StartAnswers =
    StartAnswers(first: Mood, second: Mood, inspectWorks: bool, listWorks: bool, removals: string -> Mood)

  /** All but the removals, which may each go their own way. */
  predicate StartsWork(a: StartAnswers) {
    a.first.Works? && a.second.Works? && a.inspectWorks && a.listWorks
  }

  /** In the way of `target`, the daemon's to remove, and really removed. */
  ghost predicate Removed(cs: Containers, target: string, removals: string -> Mood, id: string)
    requires target in cs && id in cs
  {
    Victim(cs, target, id) && Acts(removals(id))
  }

  /** Exactly the victims whose removal is carried out are gone. */
  method FreeConflictingPorts(d: Engine, target: string, a: StartAnswers)
    modifies d`containers, d`removals
    ensures forall id :: id in d.containers ==> id in old(d.containers) && d.containers[id] == old(d.containers)[id]
    ensures forall id :: id in old(d.containers) ==>
              (id !in d.containers <==>
                && a.inspectWorks && a.listWorks
                && target in old(d.containers) && Removed(old(d.containers), target, a.removals, id))
  {
    hide Victim, Condemned, Lists;
    if !a.inspectWorks || target !in d.containers {
      return;
    }
    ghost var cs := d.containers;
    var wanted := HostNumbers(d.containers[target].spec.hostPorts);
    if wanted == [] {
      NothingWanted(cs, target);
      return;
    }
    if !a.listWorks {
      return;
    }
    var items := d.List();
    ListingIsAddressable(cs, items);
    RemoveConflicts(d, target, wanted, items, a.removals);
    forall id | id in cs
      ensures Condemned(items, target, wanted, id) <==> Victim(cs, target, id)
    {
      CondemnedIsVictim(cs, items, target, id);
    }
  }

  lemma NothingWanted(cs: Containers, target: string)
    requires target in cs && cs[target].spec.hostPorts == []
    ensures forall id :: id in cs ==> !Victim(cs, target, id)
  {
  }

  lemma ListingIsAddressable(cs: Containers, items: seq<Item>)
    requires Lists(cs, items)
    ensures Addressable(cs, items)
  {
  }

  /** Nothing stands in the way of `target` once the removals are done. */
  ghost predicate Clears(cs: Containers, target: string, removals: string -> Mood)
    requires target in cs
  {
    forall x :: x in cs && InTheWay(cs, target, x) ==> !Blocker(cs, target, x) && Acts(removals(x))
  }

  lemma FreePortsClear(cs: Containers, id: string, removals: string -> Mood)
    requires id in cs && !PortsTaken(cs, id)
    ensures Clears(cs, id, removals)
  {
    hide Victim, Collides;
  }

  /** With what was removed gone, the ports are free exactly when nothing in the
      way was a blocker and no removal of anything in the way failed. */
  lemma HealedExactly(cs: Containers, left: Containers, id: string, removals: string -> Mood)
    requires id in cs
    requires forall x :: x in left ==> x in cs && left[x] == cs[x]
    requires forall x :: x in cs ==> (x !in left <==> Removed(cs, id, removals, x))
    ensures id in left && (PortsTaken(left, id) <==> !Clears(cs, id, removals))
  {
    hide Identifies, ReadsRunning, Collides, SharesNumber;
    assert !Removed(cs, id, removals, id);
    if x :| x in cs && InTheWay(cs, id, x) && (Blocker(cs, id, x) || !Acts(removals(x))) {
      assert x in left;
    }
    if PortsTaken(left, id) {
      var x :| x in left && x != id && Collides(left[x].published, left[id].spec.hostPorts);
      InTheWaySharesNumber(cs, id, x);
    }
  }

  /** The target itself starting changes nothing about who may be removed. */
  lemma SameVictims(cs: Containers, id: string, removals: string -> Mood, x: string)
    requires id in cs && x in cs
    ensures Removed(cs[id := Started(cs[id])], id, removals, x) <==> Removed(cs, id, removals, x)
  {
    hide Identifies, ReadsRunning;
  }

  lemma RunningIsRunning(c: Container)
    ensures IsRunning(Started(c).state)
  {
  }

  predicate Contains(s: string, part: string) {
    part <= s || (s != "" && Contains(s[1..], part))
  }

  ghost predicate Mentions(s: string, part: string) {
    exists a, b :: s == a + part + b
  }

  lemma {:induction false} ContainsExactly(s: string, part: string)
    ensures Contains(s, part) <==> Mentions(s, part)
  {
    if part <= s {
      assert s == "" + part + s[|part|..];
    } else {
      if s != "" {
        ContainsExactly(s[1..], part);
        if Mentions(s[1..], part) {
          var a, b :| s[1..] == a + part + b;
          assert s == [s[0]] + a + part + b;
        }
      }
      if Mentions(s, part) {
        var a, b :| s == a + part + b;
        assert a == "" ==> part <= s;
        assert s[1..] == a[1..] + part + b;
      }
    }
  }

  /** The answer that sets off the healing. */
  predicate SaysConflict(r: Reply) {
    r.Answer? && r.status == 500 && (Contains(r.message, PORT_TAKEN) || Contains(r.message, ADDRESS_TAKEN))
  }

  /** In letters. */
  ghost predicate ReportsConflict(r: Reply) {
    && r.Answer? && r.status == 500
    && (Mentions(r.message, "port is already allocated") || Mentions(r.message, "address already in use"))
  }

  lemma SaysConflictExactly(r: Reply)
    ensures SaysConflict(r) <==> ReportsConflict(r)
  {
    hide Contains, Mentions;
    if r.Answer? {
      ContainsExactly(r.message, "port is already allocated");
      ContainsExactly(r.message, "address already in use");
    }
  }

  ghost predicate Succeeds(r: Reply) {
    r.Answer? && (r.status == 204 || r.status == 304)
  }

  /** The containers behind the first POST of a start ... */
  ghost function Tried(cs: Containers, id: string, mood: Mood): Containers {
    if Acts(mood) && StartOutcome(cs, id) == Answer(204, "") then cs[id := Started(cs[id])] else cs
  }

  /** ... and behind the freeing of its ports. */
  ghost function Freed(cs: Containers, id: string, a: StartAnswers): Containers {
    if a.inspectWorks && a.listWorks && id in cs then map x | x in cs && !Removed(cs, id, a.removals, x) :: cs[x]
    else cs
  }

  /** Starting a container, healing a port conflict once. Whatever the engine
      answers and does, only the target changes, and a container is lost exactly
      if a conflict was reported, it was the daemon's to remove and its removal
      was carried out. */
  method Start(d: Engine, id: string, a: StartAnswers) returns (ok: bool)
    modifies d`containers, d`removals
    ensures var first := Heard(a.first, StartOutcome(old(d.containers), id));
            var freed := Freed(Tried(old(d.containers), id, a.first), id, a);
            ok <==> Succeeds(first) || (ReportsConflict(first) && Succeeds(Heard(a.second, StartOutcome(freed, id))))
    ensures forall x :: x in d.containers && x != id ==>
              x in old(d.containers) && d.containers[x] == old(d.containers)[x]
    ensures forall x :: x in old(d.containers) ==>
              (x !in d.containers <==>
                && ReportsConflict(Heard(a.first, StartOutcome(old(d.containers), id)))
                && a.inspectWorks && a.listWorks
                && id in old(d.containers) && Removed(old(d.containers), id, a.removals, x))
    ensures StartsWork(a) ==>
              (ok <==> id in old(d.containers) &&
                         (ReadsRunning(old(d.containers)[id].state) || Clears(old(d.containers), id, a.removals)))
    ensures StartsWork(a) && ok ==> id in d.containers && ReadsRunning(d.containers[id].state)
  {
    hide Removed, Blocker, PortsTaken, IsRunning, ReadsRunning, Clears, Contains, Mentions, Freed, SaysConflict;
    ghost var cs := d.containers;
    StartFacts(cs, id, a);
    var r := d.PostStart(id, a.first);
    SaysConflictExactly(r);
    if r.NoAnswer? {
      return false;
    }
    if r.status == 204 || r.status == 304 {
      return true;
    }
    if SaysConflict(r) {
      ghost var tried := d.containers;
      FreeConflictingPorts(d, id, a);
      ghost var left := d.containers;
      FreedExactly(tried, left, id, a);
      TriedVictims(cs, id, a);
      r := d.PostStart(id, a.second);
      if StartsWork(a) {
        HealedExactly(cs, left, id, a.removals);
        IsRunningExactly(left[id].state);
      }
      return r.Answer? && (r.status == 204 || r.status == 304);
    }
    return false;
  }

  lemma StartFacts(cs: Containers, id: string, a: StartAnswers)
    ensures ReportsConflict(Answer(500, PORT_TAKEN))
    ensures id in cs ==>
              && (IsRunning(cs[id].state) <==> ReadsRunning(cs[id].state))
              && ReadsRunning(Started(cs[id]).state)
              && (!PortsTaken(cs, id) ==> Clears(cs, id, a.removals))
  {
    assert PORT_TAKEN == "" + "port is already allocated" + "";
    hide PortsTaken, Clears;
    if id in cs {
      IsRunningExactly(cs[id].state);
      RunningIsRunning(cs[id]);
      IsRunningExactly(Started(cs[id]).state);
      if !PortsTaken(cs, id) {
        FreePortsClear(cs, id, a.removals);
      }
    }
  }

  lemma FreedExactly(cs: Containers, left: Containers, id: string, a: StartAnswers)
    requires forall x :: x in left ==> x in cs && left[x] == cs[x]
    requires forall x :: x in cs ==>
               (x !in left <==> a.inspectWorks && a.listWorks && id in cs && Removed(cs, id, a.removals, x))
    ensures left == Freed(cs, id, a)
  {
    hide Removed;
  }

  lemma TriedVictims(cs: Containers, id: string, a: StartAnswers)
    ensures var tried := Tried(cs, id, a.first);
            id in cs ==> id in tried && forall x :: x in cs ==>
              x in tried && (Removed(tried, id, a.removals, x) <==> Removed(cs, id, a.removals, x))
  {
    hide Removed, Started;
    if id in cs {
      forall x | x in cs
        ensures Removed(cs[id := Started(cs[id])], id, a.removals, x) <==> Removed(cs, id, a.removals, x)
      {
        SameVictims(cs, id, a.removals, x);
      }
    }
  }
}
