/** What the catalog's calls make of their backends' answers (src/catalog.cpp), over every interleaving: each answer is
reported as it was, and decides how the call ends. */
module Answers {
  import opened Numerals
  import opened Failover

  // A call to a source, and the choice that says how it was answered.
  datatype Given = Given(source: Source, answer: Choice)

  // The call a choice makes in a state, if it makes one.
  function MadeBy(s: System, c: Choice): Option<Source>
    requires |s.requests| == |s.phases|
  {
    var log := Step(s, c).log;
    if |log| > |s.log| && log[|log| - 1].act.Call? then Some(log[|log| - 1].act.source) else None
  }

  // The answers a call has been given along a run, in order.
  function AnswersOf(start: System, cs: seq<Choice>, who: nat): seq<Given>
    requires |start.requests| == |start.phases|
  {
    if cs == [] then []
    else
      var n := |cs| - 1;
      var made := MadeBy(Run(start, cs[..n]), cs[n]);
      AnswersOf(start, cs[..n], who)
      + if cs[n].who == who && made.Some? then [Given(made.value, cs[n])] else []
  }

  // What a call does besides planning.
  function Spoken(acts: seq<Act>): seq<Act> {
    if acts == [] then []
    else
      var last := acts[|acts| - 1];
      Spoken(acts[..|acts| - 1]) + if last.Plan? then [] else [last]
  }

  // Each answer's call and its report; the last one's report may be still to come.
  function Told(g: seq<Given>, reported: bool): seq<Act> {
    if g == [] then []
    else
      var last := g[|g| - 1];
      Told(g[..|g| - 1], true) + [Call(last.source)]
      + if reported then [Report(last.source, last.answer.ok)] else []
  }

  lemma SpokenSnoc(acts: seq<Act>, a: Act)
    ensures Spoken(acts + [a]) == Spoken(acts) + if a.Plan? then [] else [a]
  {
    assert (acts + [a])[..|acts|] == acts;
  }

  lemma ToldCall(g: seq<Given>, x: Given)
    ensures Told(g + [x], false) == Told(g, true) + [Call(x.source)]
  {
    assert (g + [x])[..|g|] == g;
    assert Told(g, true) + [Call(x.source)] + [] == Told(g, true) + [Call(x.source)];
  }

  lemma ToldReport(g: seq<Given>)
    requires g != []
    ensures Told(g, true) == Told(g, false) + [Report(g[|g| - 1].source, g[|g| - 1].answer.ok)]
  {
    var before := Told(g[..|g| - 1], true) + [Call(g[|g| - 1].source)];
    assert before + [] == before;
  }

  // How a call that was answered ends.
  function Outcome(r: Request, g: seq<Given>): Result
    requires g != []
  {
    var last := g[|g| - 1];
    if r.Heal? then
      if !last.answer.ok then Failed(AniList, None) else if last.answer.gone then Absent else From(AniList)
    else if last.answer.ok then From(last.source)
    else if |g| == 1 || last.answer.unsupported then Failed(g[0].source, None)
    else Failed(g[0].source, Some(last.source))
  }

  predicate Awaiting(p: Phase) { p.Answered? || p.Reanswered? || p.HealAnswered? }

  predicate HealPhase(p: Phase) { p.HealPlan? || p.HealReady? || p.HealAnswered? || p.HealNote? }

  predicate CallPhase(p: Phase) { p.Ready? || p.Answered? || p.Retrying? || p.Reanswered? }

  // One or two answers, the second only after the first was bad.
  predicate Answered1(g: seq<Given>, f: Source) { |g| == 1 && g[0].source == f }

  predicate Answered2(g: seq<Given>, f: Source, b: Source) {
    |g| == 2 && g[0].source == f && !g[0].answer.ok && g[1].source == b != f
  }

  predicate Remembers(r: Request, p: Phase, g: seq<Given>) {
    && (HealPhase(p) ==> r.Heal?) && (CallPhase(p) ==> !r.Heal?)
    && match p
       case Ready(f, b) => g == [] && b != Some(f)
       case Answered(f, b, ok) => Answered1(g, f) && g[0].answer.ok == ok && b != Some(f)
       case Retrying(f, b) => Answered1(g, f) && !g[0].answer.ok && b != f
       case Reanswered(f, b, ok, unsupported) =>
         Answered2(g, f, b) && g[1].answer.ok == ok && g[1].answer.unsupported == unsupported
       case HealAnswered(ok, gone) => Answered1(g, AniList) && g[0].answer.ok == ok && g[0].answer.gone == gone
       case HealNote => Answered1(g, AniList) && g[0].answer.ok && g[0].answer.gone
       case Finished(res) =>
         if g == [] then res == NoMalBackend || res == Unsupported || res == Absent
         else res == Outcome(r, g) && |g| <= 2 && (|g| == 2 ==> !g[0].answer.ok && g[0].source != g[1].source)
              && (r.Heal? ==> Answered1(g, AniList))
       case _ => g == []
  }

  // Why a call ended without an answer; a heal that goes on has an id and someone to ask, and an absent one's id is
  // in the set.
  predicate Unanswered(s: System, absent: set<int>, r: Request, p: Phase, acts: seq<Act>, g: seq<Given>) {
    && (r.Heal? && (HealPhase(p) || g != []) ==> r.malId > 0 && s.canHeal)
    && (p == Finished(Absent) ==> r.Heal? && r.malId in absent)
    && (p.Finished? && g == [] ==>
          match p.result
          case NoMalBackend => !r.Heal? && !s.latch.malAvailable && (acts == [] ==> Synthetic(r))
          case Unsupported => r.Heal? && (if acts == [] then r.malId <= 0 || !s.canHeal else r.malId > 0 && s.canHeal)
          case _ => acts == [] && r.Heal? && r.malId > 0 && s.canHeal)
  }

  ghost predicate Sound(s: System, i: nat, acts: seq<Act>, g: seq<Given>)
    requires |s.requests| == |s.phases| && i < |s.phases|
  {
    var r, p := s.requests[i], s.phases[i];
    Remembers(r, p, g) && Unanswered(s, s.absent, r, p, acts, g) && Spoken(acts) == Told(g, !Awaiting(p))
  }

  lemma NextAnswers(start: System, cs: seq<Choice>, n: nat, who: nat)
    requires |start.requests| == |start.phases| && n + 1 == |cs|
    ensures AnswersOf(start, cs, who) == AnswersOf(start, cs[..n], who)
      + if cs[n].who == who && MadeBy(Run(start, cs[..n]), cs[n]).Some?
        then [Given(MadeBy(Run(start, cs[..n]), cs[n]).value, cs[n])] else []
  {}

  lemma MadeByMove(s: System, c: Choice)
    requires |s.requests| == |s.phases| && c.who < |s.phases|
    ensures var a := MoveOf(s, c).act;
      MadeBy(s, c) == if a.Some? && a.value.Call? then Some(a.value.source) else None
  {}

  function GivenBy(g: seq<Given>, act: Option<Act>, c: Choice): seq<Given> {
    if act.Some? && act.value.Call? then g + [Given(act.value.source, c)] else g
  }

  // One move, on what the mover remembers.
  lemma MoveRemembers(s: System, c: Choice, acts: seq<Act>, g: seq<Given>, m: Move, acts': seq<Act>, g': seq<Given>)
    requires |s.requests| == |s.phases| && c.who < |s.phases| && m == MoveOf(s, c)
    requires var r, p := s.requests[c.who], s.phases[c.who];
      Remembers(r, p, g) && Unanswered(s, s.absent, r, p, acts, g) && (p == Start ==> acts == [])
    requires g' == GivenBy(g, m.act, c) && acts' == if m.act.Some? then acts + [m.act.value] else acts
    ensures Remembers(s.requests[c.who], m.phase, g')
    ensures Unanswered(s, s.absent + m.noted, s.requests[c.who], m.phase, acts', g')
  {}

  lemma Tells(acts: seq<Act>, g: seq<Given>, a: Act, c: Choice, before: bool, after: bool)
    requires Spoken(acts) == Told(g, before)
    requires a.Call? ==> before && !after
    requires a.Report? ==> g != [] && !before && after && a == Report(g[|g| - 1].source, g[|g| - 1].answer.ok)
    requires a.Plan? ==> before == after
    ensures Spoken(acts + [a]) == Told(if a.Call? then g + [Given(a.source, c)] else g, after)
  {
    SpokenSnoc(acts, a);
    if a.Call? {
      ToldCall(g, Given(a.source, c));
    } else if a.Report? {
      ToldReport(g);
    } else {
      assert Spoken(acts) + [] == Spoken(acts);
    }
  }

  // A move's act fits the phase it leaves and the one it enters.
  lemma MoveFits(s: System, c: Choice, g: seq<Given>)
    requires |s.requests| == |s.phases| && c.who < |s.phases|
    requires Remembers(s.requests[c.who], s.phases[c.who], g)
    ensures var m, before := MoveOf(s, c), !Awaiting(s.phases[c.who]);
      var after := !Awaiting(m.phase);
      if m.act == None then before == after
      else
        var a := m.act.value;
        && (a.Call? ==> before && !after) && (a.Plan? ==> before == after)
        && (a.Report? ==> g != [] && !before && after && a == Report(g[|g| - 1].source, g[|g| - 1].answer.ok))
  {}

  lemma MoverSound(s: System, c: Choice, t: System, m: Move, acts: seq<Act>, g: seq<Given>,
                   acts': seq<Act>, g': seq<Given>)
    requires |s.requests| == |s.phases| && c.who < |s.phases| && t == Step(s, c) && m == MoveOf(s, c)
    requires Sound(s, c.who, acts, g) && (s.phases[c.who] == Start ==> acts == [])
    requires g' == GivenBy(g, m.act, c) && acts' == if m.act.Some? then acts + [m.act.value] else acts
    ensures |t.requests| == |t.phases| == |s.phases| && Sound(t, c.who, acts', g')
  {
    MoveRemembers(s, c, acts, g, m, acts', g');
    MoverTells(s, c, m, acts, g, acts', g');
    StepOf(s, c);
    SoundThere(s, t, c.who, m.phase, s.absent + m.noted, acts', g');
  }

  lemma MoverTells(s: System, c: Choice, m: Move, acts: seq<Act>, g: seq<Given>, acts': seq<Act>, g': seq<Given>)
    requires |s.requests| == |s.phases| && c.who < |s.phases| && m == MoveOf(s, c)
    requires Remembers(s.requests[c.who], s.phases[c.who], g) && Spoken(acts) == Told(g, !Awaiting(s.phases[c.who]))
    requires g' == GivenBy(g, m.act, c) && acts' == if m.act.Some? then acts + [m.act.value] else acts
    ensures Spoken(acts') == Told(g', !Awaiting(m.phase))
  {
    MoveFits(s, c, g);
    if m.act.Some? { Tells(acts, g, m.act.value, c, !Awaiting(s.phases[c.who]), !Awaiting(m.phase)); }
  }

  lemma StepOf(s: System, c: Choice)
    requires |s.requests| == |s.phases| && c.who < |s.phases|
    ensures var t := Step(s, c);
      && t.phases == s.phases[c.who := MoveOf(s, c).phase] && t.requests == s.requests
      && t.canHeal == s.canHeal && t.latch.malAvailable == s.latch.malAvailable
      && t.absent == s.absent + MoveOf(s, c).noted
  {}

  lemma SoundThere(s: System, t: System, i: nat, p: Phase, absent: set<int>, acts: seq<Act>, g: seq<Given>)
    requires |s.requests| == |s.phases| == |t.phases| && t.requests == s.requests && i < |s.phases| && t.phases[i] == p
    requires t.canHeal == s.canHeal && t.latch.malAvailable == s.latch.malAvailable && absent <= t.absent
    requires Remembers(s.requests[i], p, g) && Unanswered(s, absent, s.requests[i], p, acts, g)
    requires Spoken(acts) == Told(g, !Awaiting(p))
    ensures Sound(t, i, acts, g)
  {}

  lemma StaySound(s: System, c: Choice, i: nat, g: seq<Given>, g': seq<Given>)
    requires |s.requests| == |s.phases| && i < |s.phases| && Disciplined(s) && Sound(s, i, Mine(s.log, i), g)
    requires g' == if c.who == i then GivenBy(g, MoveOf(s, c).act, c) else g
    ensures Sound(Step(s, c), i, Mine(Step(s, c).log, i), g')
  {
    if c.who < |s.phases| {
      MineStep(s, c, i);
      if i == c.who {
        assert History(s.requests[i], s.latch.malAvailable, s.phases[i], Mine(s.log, i));
        MoverSound(s, c, Step(s, c), MoveOf(s, c), Mine(s.log, i), g, Mine(Step(s, c).log, i), g');
      } else {
        StepOf(s, c);
        SoundThere(s, Step(s, c), i, s.phases[i], s.absent, Mine(s.log, i), g);
      }
    }
  }

  lemma NextGiven(start: System, cs: seq<Choice>, n: nat, i: nat)
    requires |start.requests| == |start.phases| && n + 1 == |cs|
    requires var s := Run(start, cs[..n]); i < |s.phases|
    ensures var s, c, g := Run(start, cs[..n]), cs[n], AnswersOf(start, cs[..n], i);
      AnswersOf(start, cs, i) == if c.who == i then GivenBy(g, MoveOf(s, c).act, c) else g
  {
    var s, c, g := Run(start, cs[..n]), cs[n], AnswersOf(start, cs[..n], i);
    NextAnswers(start, cs, n, i);
    assert g + [] == g;
    if c.who == i { MadeByMove(s, c); }
  }

  lemma {:induction false} AlwaysSound(mode: Mode, malAvailable: bool, canHeal: bool, requests: seq<Request>,
                                       cs: seq<Choice>, i: nat)
    requires i < |requests|
    ensures var start := Initial(mode, malAvailable, canHeal, requests);
      var s := Run(start, cs);
      |s.phases| == |requests| && Sound(s, i, Mine(s.log, i), AnswersOf(start, cs, i))
  {
    RunKeeps(mode, malAvailable, canHeal, requests, cs);
    if cs != [] {
      var n := |cs| - 1;
      var start := Initial(mode, malAvailable, canHeal, requests);
      RunKeeps(mode, malAvailable, canHeal, requests, cs[..n]);
      AlwaysSound(mode, malAvailable, canHeal, requests, cs[..n], i);
      AlwaysDisciplined(mode, malAvailable, canHeal, requests, cs[..n]);
      NextGiven(start, cs, n, i);
      StaySound(Run(start, cs[..n]), cs[n], i, AnswersOf(start, cs[..n], i), AnswersOf(start, cs, i));
    }
  }

  // ---- What that says ----

  /** Whatever the interleaving, a call's acts besides planning are, for each answer it was given, the call and then the
  report of that very answer, the last one's report perhaps still to come. */
  lemma ReportsWhatWasAnswered(mode: Mode, malAvailable: bool, canHeal: bool, requests: seq<Request>, cs: seq<Choice>,
                               i: nat)
    requires i < |requests|
    ensures var start := Initial(mode, malAvailable, canHeal, requests);
      var s, g := Run(start, cs), AnswersOf(start, cs, i);
      |s.phases| == |requests| && Spoken(Mine(s.log, i)) == Told(g, !Awaiting(s.phases[i]))
  {
    AlwaysSound(mode, malAvailable, canHeal, requests, cs, i);
  }

  /** With the last source's data exactly when its answer was good, and for a heal held something; as absent when a
  heal's good answer was that there is nothing; else failed, naming the first source, and the second too if that was
  asked and had something to say. */
  predicate EndsBy(r: Request, g: seq<Given>, res: Result)
    requires g != []
  {
    var first, last := g[0], g[|g| - 1];
    && |g| <= 2 && (|g| == 2 ==> !first.answer.ok && !r.Heal? && first.source != last.source)
    && (forall source :: res == From(source) <==>
          last.answer.ok && source == last.source && !(r.Heal? && last.answer.gone))
    && (res == Absent <==> r.Heal? && last.answer.ok && last.answer.gone)
    && (res == Failed(first.source, None) <==> !last.answer.ok && (r.Heal? || |g| == 1 || last.answer.unsupported))
    && (res == Failed(first.source, Some(last.source)) <==>
          |g| == 2 && !last.answer.ok && !last.answer.unsupported)
    && (r.Heal? ==> first.source == AniList)
  }

  lemma OutcomeMeans(r: Request, g: seq<Given>, res: Result)
    requires g != [] && |g| <= 2 && (|g| == 2 ==> !g[0].answer.ok && g[0].source != g[1].source)
    requires (r.Heal? ==> Answered1(g, AniList)) && res == Outcome(r, g)
    ensures EndsBy(r, g, res)
  {}

  /** And it ends by the last of them. */
  lemma EndsAsAnswered(mode: Mode, malAvailable: bool, canHeal: bool, requests: seq<Request>, cs: seq<Choice>, i: nat)
    requires i < |requests|
    ensures var start := Initial(mode, malAvailable, canHeal, requests);
      var s, g := Run(start, cs), AnswersOf(start, cs, i);
      && |s.phases| == |requests|
      && (s.phases[i].Finished? && g != [] ==> EndsBy(requests[i], g, s.phases[i].result))
  {
    AlwaysSound(mode, malAvailable, canHeal, requests, cs, i);
    RunKeeps(mode, malAvailable, canHeal, requests, cs);
    var start := Initial(mode, malAvailable, canHeal, requests);
    EndsSoundly(Run(start, cs), i, requests[i], AnswersOf(start, cs, i));
  }

  lemma EndsSoundly(s: System, i: nat, r: Request, g: seq<Given>)
    requires |s.requests| == |s.phases| && i < |s.phases| && r == s.requests[i] && Remembers(r, s.phases[i], g)
    ensures s.phases[i].Finished? && g != [] ==> EndsBy(r, g, s.phases[i].result)
  {
    if s.phases[i].Finished? && g != [] { OutcomeMeans(r, g, s.phases[i].result); }
  }

  /** Without an answer it ends only so: a call for want of a MAL backend, when it is MAL's alone or MAL was planned; a
  heal as unsupported exactly for want of an id or of anyone to ask, or because MAL was planned, and as absent only
  when its id was known to be. */
  lemma EndsUnanswered(mode: Mode, malAvailable: bool, canHeal: bool, requests: seq<Request>, cs: seq<Choice>, i: nat)
    requires i < |requests|
    ensures var start := Initial(mode, malAvailable, canHeal, requests);
      var s, r := Run(start, cs), requests[i];
      && |s.phases| == |requests|
      && (AnswersOf(start, cs, i) != [] && r.Heal? ==> r.malId > 0 && canHeal)
      && (s.phases[i].Finished? && AnswersOf(start, cs, i) == [] ==>
            var res, acts := s.phases[i].result, Mine(s.log, i);
            if !r.Heal? then
              res == NoMalBackend && !malAvailable && (Synthetic(r) || exists b :: acts == [Plan(Mal, b)])
            else if r.malId <= 0 || !canHeal then res == Unsupported && acts == []
            else (res == Absent && r.malId in s.absent && acts == [])
                 || (res == Unsupported && exists b :: acts == [Plan(Mal, b)]))
  {
    AlwaysSound(mode, malAvailable, canHeal, requests, cs, i);
    RunKeeps(mode, malAvailable, canHeal, requests, cs);
    AlwaysDisciplined(mode, malAvailable, canHeal, requests, cs);
    var s := Run(Initial(mode, malAvailable, canHeal, requests), cs);
    assert History(requests[i], malAvailable, s.phases[i], Mine(s.log, i));
  }

  lemma {:induction false} CallsSpoken(acts: seq<Act>, a: Act)
    requires a in acts && !a.Plan?
    ensures a in Spoken(acts)
  {
    var n := |acts| - 1;
    if acts[n] != a { CallsSpoken(acts[..n], a); }
  }

  /** A MAL id is remembered as absent exactly when a heal of it was given the good answer that there is nothing, and
  has noted it. */
  lemma AbsentExactlyWhen(mode: Mode, malAvailable: bool, canHeal: bool, requests: seq<Request>, cs: seq<Choice>,
                          m: int)
    ensures var start := Initial(mode, malAvailable, canHeal, requests);
      var s := Run(start, cs);
      && |s.phases| == |requests|
      && (m in s.absent <==> exists i :: 0 <= i < |requests| && HealedAway(start, cs, s, i, m))
  {
    var start := Initial(mode, malAvailable, canHeal, requests);
    var s := Run(start, cs);
    RunKeeps(mode, malAvailable, canHeal, requests, cs);
    if m in s.absent {
      AbsencesConfirmed(mode, malAvailable, canHeal, requests, cs, Choice(0, false, false, false, 0));
      var i :| 0 <= i < |s.phases| && s.requests[i] == Heal(m) && s.phases[i] == Finished(Absent)
               && Call(AniList) in Mine(s.log, i);
      AlwaysSound(mode, malAvailable, canHeal, requests, cs, i);
      CallsSpoken(Mine(s.log, i), Call(AniList));
      EndsAsAnswered(mode, malAvailable, canHeal, requests, cs, i);
      assert HealedAway(start, cs, s, i, m);
    }
    if i :| 0 <= i < |requests| && HealedAway(start, cs, s, i, m) {
      AlwaysSound(mode, malAvailable, canHeal, requests, cs, i);
    }
  }

  ghost predicate HealedAway(start: System, cs: seq<Choice>, s: System, i: nat, m: int)
    requires |start.requests| == |start.phases| && i < |s.phases| == |s.requests|
  {
    var g := AnswersOf(start, cs, i);
    s.requests[i] == Heal(m) && s.phases[i] == Finished(Absent) && g != [] && g[0].answer.ok && g[0].answer.gone
  }

  // ---- What is planned ----

  // The plan made at a time, after that last report about AniList.
  predicate PlanIs(mode: Mode, malAvailable: bool, last: Option<(bool, int)>, at: int, first: Source,
                   second: Option<Source>)
  {
    && (first == Mal <==>
          (mode == OnlyMal || (mode == Auto && malAvailable && last.Some? && !last.value.0 && at < last.value.1 + 600)))
    && second == if mode != Auto then None
                 else if first == Mal then Some(AniList) else if malAvailable then Some(Mal) else None
  }

  ghost predicate PlannedWell(mode: Mode, malAvailable: bool, log: seq<Event>) {
    forall k :: 0 <= k < |log| && log[k].act.Plan? ==>
      PlanIs(mode, malAvailable, LastAniList(log[..k]), log[k].at, log[k].act.first, log[k].act.second)
  }

  lemma PlannedSnoc(mode: Mode, malAvailable: bool, log: seq<Event>, e: Event)
    requires PlannedWell(mode, malAvailable, log)
    requires e.act.Plan? ==> PlanIs(mode, malAvailable, LastAniList(log), e.at, e.act.first, e.act.second)
    ensures PlannedWell(mode, malAvailable, log + [e])
  {
    var more := log + [e];
    forall k | 0 <= k < |more| && more[k].act.Plan?
      ensures PlanIs(mode, malAvailable, LastAniList(more[..k]), more[k].at, more[k].act.first, more[k].act.second)
    {
      if k < |log| { assert more[..k] == log[..k] && more[k] == log[k]; } else { assert more[..k] == log; }
    }
  }

  lemma PlansByLatch(l: Latch, mode: Mode, malAvailable: bool, last: Option<(bool, int)>, now: int)
    requires l == LatchFor(mode, malAvailable, last)
    ensures PlanIs(mode, malAvailable, last, now, FirstOf(l, now), FallbackOf(l, FirstOf(l, now)))
  {}

  lemma PlannedStep(mode: Mode, malAvailable: bool, s: System, c: Choice)
    requires |s.requests| == |s.phases| && PlannedWell(mode, malAvailable, s.log)
    requires s.latch == LatchFor(mode, malAvailable, LastAniList(s.log))
    ensures PlannedWell(mode, malAvailable, Step(s, c).log)
  {
    if c.who < |s.phases| && MoveOf(s, c).act.Some? {
      PlansByLatch(s.latch, mode, malAvailable, LastAniList(s.log), c.now);
      PlannedSnoc(mode, malAvailable, s.log, Event(c.who, MoveOf(s, c).act.value, c.now));
    }
  }

  /** Every plan in every run goes to MAL first exactly in MAL mode, or in auto mode with a backend less than 600 s
  after a last AniList report that was a failure, and to the other source second exactly in auto mode, if it has a
  backend. */
  lemma {:induction false} EveryPlanIs(mode: Mode, malAvailable: bool, canHeal: bool, requests: seq<Request>,
                                       cs: seq<Choice>)
    ensures PlannedWell(mode, malAvailable, Run(Initial(mode, malAvailable, canHeal, requests), cs).log)
  {
    if cs != [] {
      var n := |cs| - 1;
      EveryPlanIs(mode, malAvailable, canHeal, requests, cs[..n]);
      LatchIsLastReport(mode, malAvailable, canHeal, requests, cs[..n]);
      PlannedStep(mode, malAvailable, Run(Initial(mode, malAvailable, canHeal, requests), cs[..n]), cs[n]);
    }
  }
}
