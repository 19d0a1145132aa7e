/** The catalog dispatcher (src/catalog.cpp): a timed latch shared by concurrent calls. Only
planning and reporting are atomic; the backend calls between them interleave freely. */
module Failover {
  import opened Numerals

  datatype Mode = Auto | OnlyAniList | OnlyMal
  datatype Source = AniList | Mal

  const RETRY_AFTER := 600

  datatype Latch = Latch(mode: Mode, malAvailable: bool, active: Source, retryAt: Option<int>)

  // ---- FailoverState ----

  function FirstOf(l: Latch, now: int): Source {
    if l.mode == OnlyAniList then AniList
    else if l.mode == OnlyMal then Mal
    else if l.active == Mal && l.malAvailable && l.retryAt.Some? && now < l.retryAt.value then Mal
    else AniList
  }

  function FallbackOf(l: Latch, tried: Source): Option<Source> {
    if l.mode != Auto then None
    else if tried == Mal then Some(AniList)
    else if l.malAvailable then Some(Mal) else None
  }

  function AfterResult(l: Latch, s: Source, ok: bool, now: int): Latch {
    if s != AniList then l
    else if ok then l.(active := AniList, retryAt := None)
    else if l.mode == Auto && l.malAvailable then l.(active := Mal, retryAt := Some(now + RETRY_AFTER))
    else l
  }

  class FailoverState {
    var mode: Mode
    var malAvailable: bool
    var active: Source
    var retryAt: Option<int>

    constructor (mode: Mode, malAvailable: bool)
      ensures Value() == Fresh(mode, malAvailable)
    {
      this.mode, this.malAvailable, active, retryAt := mode, malAvailable, AniList, None;
    }

    ghost function Value(): Latch
      reads this
    {
      Latch(mode, malAvailable, active, retryAt)
    }

    method First(now: int) returns (s: Source)
      ensures s == FirstOf(Value(), now)
    {
      match mode {
        case OnlyAniList => return AniList;
        case OnlyMal => return Mal;
        case Auto =>
      }
      if active == Mal && malAvailable && retryAt.Some? && now < retryAt.value { return Mal; }
      return AniList;
    }

    method FallbackFor(tried: Source) returns (s: Option<Source>)
      ensures s == FallbackOf(Value(), tried)
    {
      if mode != Auto { return None; }
      if tried == AniList { return if malAvailable then Some(Mal) else None; }
      return Some(AniList);
    }

    method OnResult(s: Source, ok: bool, now: int)
      modifies this
      ensures Value() == AfterResult(old(Value()), s, ok, now)
    {
      if s != AniList { return; }
      if ok {
        active, retryAt := AniList, None;
        return;
      }
      if mode == Auto && malAvailable {
        active, retryAt := Mal, Some(now + RETRY_AFTER);
      }
    }
  }

  function Fresh(mode: Mode, malAvailable: bool): Latch {
    Latch(mode, malAvailable, AniList, None)
  }

  // ---- Concurrent calls ----

  // What a caller asks: a browse, one row by AniList id (negative when synthetic), or the AniList
  // entry of a MAL id.
  datatype Request = Browse | Row(id: int) | Heal(malId: int)

  datatype Result =
    | From(source: Source)                          // that source's answer
    | NoMalBackend
    | Failed(first: Source, second: Option<Source>) // the sources the composed error names
    | Unsupported
    | Absent                                        // AniList has no such entry

  datatype Phase =
    | Start
    | Ready(first: Source, second: Option<Source>)
    | Answered(first: Source, second: Option<Source>, ok: bool)
    | Retrying(first: Source, backup: Source)
    | Reanswered(first: Source, backup: Source, ok: bool, unsupported: bool)
    | HealPlan
    | HealReady
    | HealAnswered(ok: bool, gone: bool)
    | HealNote
    | Finished(result: Result)

  // What a call does that others can notice.
  datatype Act = Plan(first: Source, second: Option<Source>) | Call(source: Source) | Report(source: Source, ok: bool)

  datatype Event = Event(who: nat, act: Act, at: int)

  datatype System = System(latch: Latch, canHeal: bool, absent: set<int>,
                           requests: seq<Request>, phases: seq<Phase>, log: seq<Event>)

  // One scheduling choice: which call moves, what its backend answers, what the clock reads.
  datatype Choice = Choice(who: nat, ok: bool, unsupported: bool, gone: bool, now: int)

  function Initial(mode: Mode, malAvailable: bool, canHeal: bool, requests: seq<Request>): System {
    System(Fresh(mode, malAvailable), canHeal, {}, requests, seq(|requests|, _ => Start), [])
  }

  // A call's next phase, what it does, and what it adds to the absent set.
  datatype Move = Move(phase: Phase, act: Option<Act>, noted: set<int>)

  function MoveOf(s: System, c: Choice): Move
    requires c.who < |s.requests| == |s.phases|
  {
    var r := s.requests[c.who];
    var first := FirstOf(s.latch, c.now);
    var second := FallbackOf(s.latch, first);
    match s.phases[c.who]
    case Start =>
      if r.Heal? then
        Move(if r.malId <= 0 || !s.canHeal then Finished(Unsupported)
             else if r.malId in s.absent then Finished(Absent) else HealPlan, None, {})
      else if r.Row? && r.id < 0 then
        Move(if s.latch.malAvailable then Ready(Mal, None) else Finished(NoMalBackend), None, {})
      else
        Move(if first == Mal && !s.latch.malAvailable then Finished(NoMalBackend) else Ready(first, second),
             Some(Plan(first, second)), {})
    case Ready(f, b) => Move(Answered(f, b, c.ok), Some(Call(f)), {})
    case Answered(f, b, ok) =>
      Move(if ok then Finished(From(f)) else if b.None? then Finished(Failed(f, None)) else Retrying(f, b.value),
           Some(Report(f, ok)), {})
    case Retrying(f, b) => Move(Reanswered(f, b, c.ok, c.unsupported), Some(Call(b)), {})
    case Reanswered(f, b, ok, unsupported) =>
      Move(Finished(if ok then From(b) else if unsupported then Failed(f, None) else Failed(f, Some(b))),
           Some(Report(b, ok)), {})
    case HealPlan =>
      Move(if first == AniList then HealReady else Finished(Unsupported), Some(Plan(first, second)), {})
    case HealReady => Move(HealAnswered(c.ok, c.gone), Some(Call(AniList)), {})
    case HealAnswered(ok, gone) =>
      Move(if !ok then Finished(Failed(AniList, None)) else if gone then HealNote else Finished(From(AniList)),
           Some(Report(AniList, ok)), {})
    case HealNote => Move(Finished(Absent), None, if r.Heal? then {r.malId} else {})
    case Finished(_) => Move(s.phases[c.who], None, {})
  }

  function Step(s: System, c: Choice): (t: System)
    requires |s.requests| == |s.phases|
    ensures |t.requests| == |t.phases|
  {
    if c.who >= |s.phases| then s
    else
      var m := MoveOf(s, c);
      s.(phases := s.phases[c.who := m.phase],
         absent := s.absent + m.noted,
         latch := if m.act.Some? && m.act.value.Report?
                  then AfterResult(s.latch, m.act.value.source, m.act.value.ok, c.now)
                  else s.latch,
         log := if m.act.Some? then s.log + [Event(c.who, m.act.value, c.now)] else s.log)
  }

  function Run(s: System, cs: seq<Choice>): (t: System)
    requires |s.requests| == |s.phases|
    ensures |t.requests| == |t.phases|
  {
    if cs == [] then s else Step(Run(s, cs[..|cs| - 1]), cs[|cs| - 1])
  }

  // The calls share this object; a move is one atomic step of one of them.
  class Catalog {
    const state: FailoverState
    const canHeal: bool
    const requests: seq<Request>
    var healAbsent: set<int>
    var phases: seq<Phase>
    ghost var log: seq<Event>

    constructor (mode: Mode, malAvailable: bool, canHeal: bool, requests: seq<Request>)
      ensures fresh(state) && Now() == Initial(mode, malAvailable, canHeal, requests)
    {
      state := new FailoverState(mode, malAvailable);
      this.canHeal, this.requests, healAbsent := canHeal, requests, {};
      phases := seq(|requests|, _ => Start);
      log := [];
    }

    ghost function Now(): System
      reads this, state
    {
      System(state.Value(), canHeal, healAbsent, requests, phases, log)
    }

    method Plan(who: nat, now: int) returns (first: Source, second: Option<Source>)
      modifies this
      ensures first == FirstOf(state.Value(), now) && second == FallbackOf(state.Value(), first)
      ensures Now() == old(Now()).(log := old(log) + [Event(who, Act.Plan(first, second), now)])
    {
      first := state.First(now);
      second := state.FallbackFor(first);
      log := log + [Event(who, Act.Plan(first, second), now)];
    }

    method Report(who: nat, s: Source, ok: bool, now: int)
      modifies this, state
      ensures Now() == old(Now()).(latch := AfterResult(old(state.Value()), s, ok, now),
                                   log := old(log) + [Event(who, Act.Report(s, ok), now)])
    {
      state.OnResult(s, ok, now);
      log := log + [Event(who, Act.Report(s, ok), now)];
    }

    method Become(who: nat, p: Phase)
      requires who < |phases|
      modifies this
      ensures Now() == old(Now()).(phases := old(phases)[who := p])
    {
      phases := phases[who := p];
    }

    // The first move of run and heal, up to the plan.
    method Begin(c: Choice)
      requires c.who < |requests| == |phases| && phases[c.who] == Start
      modifies this, state
      ensures Now() == Step(old(Now()), c)
    {
      var r := requests[c.who];
      if r.Heal? {
        if r.malId <= 0 || !canHeal {
          Become(c.who, Finished(Unsupported));
        } else {
          Become(c.who, if r.malId in healAbsent then Finished(Absent) else HealPlan);
        }
      } else if r.Row? && r.id < 0 {
        Become(c.who, if state.malAvailable then Ready(Mal, None) else Finished(NoMalBackend));
      } else {
        var first, second := Plan(c.who, c.now);
        Become(c.who, if first == Mal && !state.malAvailable then Finished(NoMalBackend) else Ready(first, second));
      }
    }

    method Called(c: Choice, s: Source, p: Phase)
      requires c.who < |phases|
      modifies this
      ensures Now() == old(Now()).(phases := old(phases)[c.who := p], log := old(log) + [Event(c.who, Call(s), c.now)])
    {
      phases := phases[c.who := p];
      log := log + [Event(c.who, Call(s), c.now)];
    }

    method Answer(c: Choice, s: Source, ok: bool, p: Phase)
      requires c.who < |phases|
      modifies this, state
      ensures Now() == old(Now()).(phases := old(phases)[c.who := p],
                                   latch := AfterResult(old(state.Value()), s, ok, c.now),
                                   log := old(log) + [Event(c.who, Act.Report(s, ok), c.now)])
    {
      Report(c.who, s, ok, c.now);
      Become(c.who, p);
    }

    /** One move of one call, through the shared state's own operations. */
    method Move(c: Choice)
      requires |requests| == |phases|
      modifies this, state
      ensures Now() == Step(old(Now()), c)
    {
      if c.who >= |phases| { return; }
      match phases[c.who] {
        case Start => Begin(c);
        case Ready(f, b) => Called(c, f, Answered(f, b, c.ok));
        case Answered(f, b, ok) =>
          Answer(c, f, ok, if ok then Finished(From(f)) else if b.None? then Finished(Failed(f, None))
                           else Retrying(f, b.value));
        case Retrying(f, b) => Called(c, b, Reanswered(f, b, c.ok, c.unsupported));
        case Reanswered(f, b, ok, unsupported) =>
          Answer(c, b, ok, Finished(if ok then From(b) else if unsupported then Failed(f, None)
                                    else Failed(f, Some(b))));
        case HealPlan =>
          var first, second := Plan(c.who, c.now);
          Become(c.who, if first == AniList then HealReady else Finished(Unsupported));
        case HealReady => Called(c, AniList, HealAnswered(c.ok, c.gone));
        case HealAnswered(ok, gone) =>
          Answer(c, AniList, ok, if !ok then Finished(Failed(AniList, None)) else if gone then HealNote
                                 else Finished(From(AniList)));
        case HealNote =>
          if requests[c.who].Heal? { healAbsent := healAbsent + {requests[c.who].malId}; }
          Become(c.who, Finished(Absent));
        case Finished(_) =>
      }
    }

    /** Any interleaving of moves. */
    method MoveAll(cs: seq<Choice>)
      requires |requests| == |phases|
      modifies this, state
      ensures Now() == Run(old(Now()), cs)
    {
      ghost var start := Now();
      for i := 0 to |cs|
        invariant |requests| == |phases| && Now() == Run(start, cs[..i])
      {
        assert cs[..i + 1][..i] == cs[..i];
        Move(cs[i]);
      }
      assert cs[..|cs|] == cs;
    }
  }

  // ---- The latch over every interleaving ----

  // The last report about AniList in the log: whether it was good, and its time.
  function LastAniList(log: seq<Event>): Option<(bool, int)> {
    if log == [] then None
    else
      var e := log[|log| - 1];
      if e.act.Report? && e.act.source == AniList then Some((e.act.ok, e.at))
      else LastAniList(log[..|log| - 1])
  }

  // The latch the log calls for.
  function LatchFor(mode: Mode, malAvailable: bool, last: Option<(bool, int)>): Latch {
    if mode == Auto && malAvailable && last.Some? && !last.value.0
    then Latch(mode, malAvailable, Mal, Some(last.value.1 + RETRY_AFTER))
    else Fresh(mode, malAvailable)
  }

  /** In every reachable state the latch is a function of the last AniList report alone: latched on
  MAL, with a retry time 600 s after it, exactly when it was a failure in auto mode with a MAL
  backend. MAL outcomes and everything before it leave no trace. */
  lemma {:induction false} LatchIsLastReport(mode: Mode, malAvailable: bool, canHeal: bool,
                                             requests: seq<Request>, cs: seq<Choice>)
    ensures var s := Run(Initial(mode, malAvailable, canHeal, requests), cs);
      s.latch == LatchFor(mode, malAvailable, LastAniList(s.log))
  {
    if cs != [] {
      LatchIsLastReport(mode, malAvailable, canHeal, requests, cs[..|cs| - 1]);
      LatchStep(Run(Initial(mode, malAvailable, canHeal, requests), cs[..|cs| - 1]), cs[|cs| - 1], mode, malAvailable);
    }
  }

  lemma LatchStep(s: System, c: Choice, mode: Mode, malAvailable: bool)
    requires |s.requests| == |s.phases| && s.latch == LatchFor(mode, malAvailable, LastAniList(s.log))
    ensures var t := Step(s, c); t.latch == LatchFor(mode, malAvailable, LastAniList(t.log))
  {
    if c.who < |s.phases| && MoveOf(s, c).act.Some? {
      assert (s.log + [Event(c.who, MoveOf(s, c).act.value, c.now)])[..|s.log|] == s.log;
    }
  }

  /** What that means for the next call. In auto mode a plan goes to MAL first exactly when a MAL
  backend exists and the last AniList report was a failure less than 600 s before. */
  lemma PlansBy(mode: Mode, malAvailable: bool, canHeal: bool, requests: seq<Request>, cs: seq<Choice>, now: int)
    ensures var s := Run(Initial(mode, malAvailable, canHeal, requests), cs);
      var last := LastAniList(s.log);
      && (mode == Auto ==>
            (FirstOf(s.latch, now) == Mal
             <==> malAvailable && last.Some? && !last.value.0 && now < last.value.1 + RETRY_AFTER))
      && (mode == OnlyAniList ==> FirstOf(s.latch, now) == AniList && FallbackOf(s.latch, AniList) == None)
      && (mode == OnlyMal ==> FirstOf(s.latch, now) == Mal && FallbackOf(s.latch, Mal) == None)
  {
    LatchIsLastReport(mode, malAvailable, canHeal, requests, cs);
  }

  // ---- What each call does ----

  function Mine(log: seq<Event>, who: nat): seq<Act> {
    if log == [] then []
    else
      var before := Mine(log[..|log| - 1], who);
      if log[|log| - 1].who == who then before + [log[|log| - 1].act] else before
  }

  // A plan the request may get: synthetic rows are MAL's alone, and a source is planned only
  // where it has a backend.
  predicate Planned(r: Request, malAvailable: bool, f: Source, b: Option<Source>) {
    && !r.Heal?
    && (f == Mal || b == Some(Mal) ==> malAvailable)
    && b != Some(f)
    && (Synthetic(r) ==> f == Mal && b == None)
  }

  predicate Synthetic(r: Request) { r.Row? && r.id < 0 }

  function PlanActs(r: Request, f: Source, b: Option<Source>): seq<Act> {
    if Synthetic(r) then [] else [Plan(f, b)]
  }

  // Exactly what a call has done by the time it is in a phase.
  ghost predicate History(r: Request, malAvailable: bool, p: Phase, acts: seq<Act>)
  {
    match p
    case Start => acts == []
    case Ready(f, b) => Planned(r, malAvailable, f, b) && acts == PlanActs(r, f, b)
    case Answered(f, b, _) => Planned(r, malAvailable, f, b) && acts == PlanActs(r, f, b) + [Call(f)]
    case Retrying(f, b) =>
      Planned(r, malAvailable, f, Some(b)) && acts == PlanActs(r, f, Some(b)) + [Call(f), Report(f, false)]
    case Reanswered(f, b, _, _) =>
      && Planned(r, malAvailable, f, Some(b))
      && acts == PlanActs(r, f, Some(b)) + [Call(f), Report(f, false), Call(b)]
    case HealPlan => r.Heal? && acts == []
    case HealReady => r.Heal? && exists b :: acts == [Plan(AniList, b)]
    case HealAnswered(_, _) => r.Heal? && exists b :: acts == [Plan(AniList, b), Call(AniList)]
    case HealNote => r.Heal? && exists b :: acts == [Plan(AniList, b), Call(AniList), Report(AniList, true)]
    case Finished(res) => if r.Heal? then HealEnded(res, acts) else Ended(r, malAvailable, res, acts)
  }

  ghost predicate Ended(r: Request, malAvailable: bool, res: Result, acts: seq<Act>) {
    match res
    case From(s) =>
      || (exists b :: Planned(r, malAvailable, s, b) && acts == PlanActs(r, s, b) + [Call(s), Report(s, true)])
      || (exists f :: Planned(r, malAvailable, f, Some(s))
                      && acts == PlanActs(r, f, Some(s)) + [Call(f), Report(f, false), Call(s), Report(s, true)])
    case Failed(f, Some(b)) =>
      && Planned(r, malAvailable, f, Some(b))
      && acts == PlanActs(r, f, Some(b)) + [Call(f), Report(f, false), Call(b), Report(b, false)]
    case Failed(f, None) =>
      || (Planned(r, malAvailable, f, None) && acts == PlanActs(r, f, None) + [Call(f), Report(f, false)])
      || (exists b :: Planned(r, malAvailable, f, Some(b))
                      && acts == PlanActs(r, f, Some(b)) + [Call(f), Report(f, false), Call(b), Report(b, false)])
    case NoMalBackend => !malAvailable && (acts == [] || acts == [Plan(Mal, None)])
    case _ => false
  }

  ghost predicate HealEnded(res: Result, acts: seq<Act>) {
    match res
    case From(s) => s == AniList && exists b :: acts == [Plan(AniList, b), Call(AniList), Report(AniList, true)]
    case Failed(f, b) =>
      f == AniList && b == None && exists b :: acts == [Plan(AniList, b), Call(AniList), Report(AniList, false)]
    case Absent =>
      acts == [] || exists b :: acts == [Plan(AniList, b), Call(AniList), Report(AniList, true)]
    case Unsupported => acts == [] || exists b :: acts == [Plan(Mal, b)]
    case NoMalBackend => false
  }

  ghost predicate Disciplined(s: System) {
    && |s.requests| == |s.phases|
    && (s.latch.mode != Auto ==> s.latch.active == AniList)
    && (s.latch.active == Mal ==> s.latch.malAvailable)
    && forall i :: 0 <= i < |s.phases| ==>
         History(s.requests[i], s.latch.malAvailable, s.phases[i], Mine(s.log, i))
  }

  lemma MineSnoc(log: seq<Event>, e: Event, who: nat)
    ensures Mine(log + [e], who) == if e.who == who then Mine(log, who) + [e.act] else Mine(log, who)
  {
    assert (log + [e])[..|log|] == log;
  }

  // One move keeps the mover's history exact.
  lemma CallKeepsHistory(s: System, c: Choice, acts: seq<Act>)
    requires Disciplined(s) && c.who < |s.phases| && !s.requests[c.who].Heal?
    requires acts == Mine(s.log, c.who)
    ensures var m := MoveOf(s, c);
      History(s.requests[c.who], s.latch.malAvailable, m.phase,
              if m.act.Some? then acts + [m.act.value] else acts)
  {
    assert History(s.requests[c.who], s.latch.malAvailable, s.phases[c.who], acts);
    match s.phases[c.who] {
      case Start =>
      case Ready(f, b) =>
      case Answered(f, b, ok) =>
      case Retrying(f, b) =>
      case Reanswered(f, b, ok, unsupported) =>
      case _ =>
    }
  }

  lemma HealKeepsHistory(s: System, c: Choice, acts: seq<Act>)
    requires Disciplined(s) && c.who < |s.phases| && s.requests[c.who].Heal?
    requires acts == Mine(s.log, c.who)
    ensures var m := MoveOf(s, c);
      History(s.requests[c.who], s.latch.malAvailable, m.phase,
              if m.act.Some? then acts + [m.act.value] else acts)
  {
    assert History(s.requests[c.who], s.latch.malAvailable, s.phases[c.who], acts);
    match s.phases[c.who] {
      case Start =>
      case HealPlan =>
      case HealReady =>
      case HealAnswered(ok, gone) =>
      case HealNote =>
      case _ =>
    }
  }

  lemma MoveKeepsHistory(s: System, c: Choice, acts: seq<Act>)
    requires Disciplined(s) && c.who < |s.phases| && acts == Mine(s.log, c.who)
    ensures var m := MoveOf(s, c);
      History(s.requests[c.who], s.latch.malAvailable, m.phase,
              if m.act.Some? then acts + [m.act.value] else acts)
  {
    if s.requests[c.who].Heal? { HealKeepsHistory(s, c, acts); } else { CallKeepsHistory(s, c, acts); }
  }

  lemma MineStep(s: System, c: Choice, i: nat)
    requires |s.requests| == |s.phases| && c.who < |s.phases|
    ensures Mine(Step(s, c).log, i)
         == if i == c.who && MoveOf(s, c).act.Some? then Mine(s.log, i) + [MoveOf(s, c).act.value] else Mine(s.log, i)
  {
    if MoveOf(s, c).act.Some? { MineSnoc(s.log, Event(c.who, MoveOf(s, c).act.value, c.now), i); }
  }

  lemma LatchSane(s: System, c: Choice)
    requires Disciplined(s)
    ensures var l := Step(s, c).latch;
      && l.mode == s.latch.mode && l.malAvailable == s.latch.malAvailable
      && (l.mode != Auto ==> l.active == AniList) && (l.active == Mal ==> l.malAvailable)
  {}

  lemma DisciplinedStep(s: System, c: Choice)
    requires Disciplined(s)
    ensures Disciplined(Step(s, c))
  {
    if c.who < |s.phases| {
      LatchSane(s, c);
      forall i | 0 <= i < |s.phases|
        ensures History(s.requests[i], s.latch.malAvailable, Step(s, c).phases[i], Mine(Step(s, c).log, i))
      {
        HistoryStep(s, c, i);
      }
    }
  }

  lemma HistoryStep(s: System, c: Choice, i: nat)
    requires Disciplined(s) && c.who < |s.phases| && i < |s.phases|
    ensures History(s.requests[i], s.latch.malAvailable, Step(s, c).phases[i], Mine(Step(s, c).log, i))
  {
    MineStep(s, c, i);
    if i == c.who {
      MoveKeepsHistory(s, c, Mine(s.log, i));
    }
  }

  /** In every reachable state, under every interleaving, each call has done exactly what its phase
  says: plan, call, report, and only after a failed report one more call and report. */
  lemma {:induction false} AlwaysDisciplined(mode: Mode, malAvailable: bool, canHeal: bool,
                                             requests: seq<Request>, cs: seq<Choice>)
    ensures Disciplined(Run(Initial(mode, malAvailable, canHeal, requests), cs))
  {
    if cs != [] {
      AlwaysDisciplined(mode, malAvailable, canHeal, requests, cs[..|cs| - 1]);
      DisciplinedStep(Run(Initial(mode, malAvailable, canHeal, requests), cs[..|cs| - 1]), cs[|cs| - 1]);
    }
  }

  // Which backends a call may have reached: never MAL without a backend; a synthetic row only
  // MAL, a heal only AniList; a second one only right after the first was reported failed, and
  // then the other one. Two sources, so at most two calls.
  predicate ReachesOnly(r: Request, malAvailable: bool, acts: seq<Act>) {
    && (forall i :: 0 <= i < |acts| && acts[i].Call? ==>
          && (acts[i].source == Mal ==> malAvailable)
          && (Synthetic(r) ==> acts[i].source == Mal)
          && (r.Heal? ==> acts[i].source == AniList))
    && (forall i, j :: 0 <= i < j < |acts| && acts[i].Call? && acts[j].Call? ==>
          acts[i].source != acts[j].source && acts[j - 1] == Report(acts[i].source, false))
  }

  lemma PlannedReaches(r: Request, malAvailable: bool, f: Source, b: Option<Source>, tail: seq<Act>)
    requires Planned(r, malAvailable, f, b)
    requires || tail == [] || tail == [Call(f)] || (exists ok :: tail == [Call(f), Report(f, ok)])
             || (b.Some? && tail == [Call(f), Report(f, false), Call(b.value)])
             || (b.Some? && exists ok :: tail == [Call(f), Report(f, false), Call(b.value), Report(b.value, ok)])
    ensures ReachesOnly(r, malAvailable, PlanActs(r, f, b) + tail)
  {}

  lemma HealEndedReaches(r: Request, malAvailable: bool, res: Result, acts: seq<Act>)
    requires r.Heal? && HealEnded(res, acts)
    ensures ReachesOnly(r, malAvailable, acts)
  {}

  lemma EndedReaches(r: Request, malAvailable: bool, res: Result, acts: seq<Act>)
    requires !r.Heal? && Ended(r, malAvailable, res, acts)
    ensures ReachesOnly(r, malAvailable, acts)
  {
    if !res.NoMalBackend? {
      if f, b, tail :| Planned(r, malAvailable, f, b) && acts == PlanActs(r, f, b) + tail
                       && (tail == [Call(f), Report(f, true)] || tail == [Call(f), Report(f, false)]) {
        PlannedReaches(r, malAvailable, f, b, tail);
      } else {
        var f, b, ok :| Planned(r, malAvailable, f, Some(b))
                        && acts == PlanActs(r, f, Some(b)) + [Call(f), Report(f, false), Call(b), Report(b, ok)];
        PlannedReaches(r, malAvailable, f, Some(b), [Call(f), Report(f, false), Call(b), Report(b, ok)]);
      }
    }
  }

  lemma HistoryReaches(r: Request, malAvailable: bool, p: Phase, acts: seq<Act>)
    requires History(r, malAvailable, p, acts)
    ensures ReachesOnly(r, malAvailable, acts)
  {
    match p {
      case Ready(f, b) =>
        assert acts == PlanActs(r, f, b) + [];
        PlannedReaches(r, malAvailable, f, b, []);
      case Answered(f, b, _) => PlannedReaches(r, malAvailable, f, b, [Call(f)]);
      case Retrying(f, b) => PlannedReaches(r, malAvailable, f, Some(b), [Call(f), Report(f, false)]);
      case Reanswered(f, b, _, _) =>
        PlannedReaches(r, malAvailable, f, Some(b), [Call(f), Report(f, false), Call(b)]);
      case Finished(res) =>
        if r.Heal? { HealEndedReaches(r, malAvailable, res, acts); } else { EndedReaches(r, malAvailable, res, acts); }
      case _ =>
    }
  }

  /** Under every interleaving a call reaches at most two backends, the second a different one; a
  negative id never reaches AniList, a heal never MAL, and nothing a backend that is not there. */
  lemma CallsBounded(mode: Mode, malAvailable: bool, canHeal: bool, requests: seq<Request>, cs: seq<Choice>, who: nat)
    requires who < |requests|
    ensures var s := Run(Initial(mode, malAvailable, canHeal, requests), cs);
      && s.requests == requests
      && ReachesOnly(requests[who], malAvailable, Mine(s.log, who))
  {
    AlwaysDisciplined(mode, malAvailable, canHeal, requests, cs);
    RunKeeps(mode, malAvailable, canHeal, requests, cs);
    var s := Run(Initial(mode, malAvailable, canHeal, requests), cs);
    HistoryReaches(requests[who], malAvailable, s.phases[who], Mine(s.log, who));
  }

  lemma {:induction false} RunKeeps(mode: Mode, malAvailable: bool, canHeal: bool,
                                    requests: seq<Request>, cs: seq<Choice>)
    ensures var s := Run(Initial(mode, malAvailable, canHeal, requests), cs);
      s.requests == requests && |s.phases| == |requests| && s.canHeal == canHeal
      && s.latch.malAvailable == malAvailable && s.latch.mode == mode
  {
    if cs != [] { RunKeeps(mode, malAvailable, canHeal, requests, cs[..|cs| - 1]); }
  }

  // ---- In auto mode nothing fails before both sources have ----

  predicate Ordinary(r: Request) { !r.Heal? && !Synthetic(r) }

  ghost predicate BothTried(p: Phase, acts: seq<Act>) {
    match p
    case Ready(_, b) => b.Some?
    case Answered(_, b, _) => b.Some?
    case Finished(Failed(_, _)) => Report(AniList, false) in acts && Report(Mal, false) in acts
    case _ => true
  }

  ghost predicate TriesBoth(s: System) {
    && |s.requests| == |s.phases| && s.latch.mode == Auto && s.latch.malAvailable
    && forall i :: 0 <= i < |s.phases| && Ordinary(s.requests[i]) ==> BothTried(s.phases[i], Mine(s.log, i))
  }

  lemma MoveTriesBoth(s: System, c: Choice, acts: seq<Act>)
    requires TriesBoth(s) && Disciplined(s) && c.who < |s.phases| && Ordinary(s.requests[c.who])
    requires acts == Mine(s.log, c.who)
    ensures var m := MoveOf(s, c); BothTried(m.phase, if m.act.Some? then acts + [m.act.value] else acts)
  {
    var r, p := s.requests[c.who], s.phases[c.who];
    assert History(r, s.latch.malAvailable, p, acts) && BothTried(p, acts);
    if p.Reanswered? {
      var f, b, k := p.first, p.backup, |PlanActs(r, p.first, Some(p.backup))|;
      assert acts[k + 1] == Report(f, false);
      if !p.ok {
        assert MoveOf(s, c).act == Some(Report(b, false));
        var after := acts + [Report(b, false)];
        assert after[k + 1] == Report(f, false) && after[|acts|] == Report(b, false);
        assert Report(f, false) in after && Report(b, false) in after;
        assert Planned(r, s.latch.malAvailable, f, Some(b));
        assert f == AniList ==> b == Mal;
        assert f == Mal ==> b == AniList;
      }
    }
  }

  lemma TriesBothStep(s: System, c: Choice)
    requires TriesBoth(s) && Disciplined(s)
    ensures TriesBoth(Step(s, c))
  {
    if c.who < |s.phases| {
      var t := Step(s, c);
      LatchSane(s, c);
      forall i | 0 <= i < |t.phases| && Ordinary(t.requests[i]) ensures BothTried(t.phases[i], Mine(t.log, i)) {
        MineStep(s, c, i);
        if i == c.who { MoveTriesBoth(s, c, Mine(s.log, i)); }
      }
    }
  }

  lemma {:induction false} AlwaysTriesBoth(canHeal: bool, requests: seq<Request>, cs: seq<Choice>)
    ensures TriesBoth(Run(Initial(Auto, true, canHeal, requests), cs))
  {
    if cs != [] {
      AlwaysTriesBoth(canHeal, requests, cs[..|cs| - 1]);
      AlwaysDisciplined(Auto, true, canHeal, requests, cs[..|cs| - 1]);
      TriesBothStep(Run(Initial(Auto, true, canHeal, requests), cs[..|cs| - 1]), cs[|cs| - 1]);
    }
  }

  /** In auto mode with a MAL backend an ordinary call fails only after both sources were called and
  failed, whatever the latch did meanwhile. */
  lemma FailsOnlyAfterBoth(canHeal: bool, requests: seq<Request>, cs: seq<Choice>, who: nat)
    requires who < |requests| && Ordinary(requests[who])
    ensures var s := Run(Initial(Auto, true, canHeal, requests), cs);
      && |s.phases| == |requests|
      && (s.phases[who].Finished? && s.phases[who].result.Failed? ==>
            Report(AniList, false) in Mine(s.log, who) && Report(Mal, false) in Mine(s.log, who))
  {
    AlwaysTriesBoth(canHeal, requests, cs);
    RunKeeps(Auto, true, canHeal, requests, cs);
  }

  // ---- The chip ----

  // Status::serving_from_mal, the chip the user sees.
  predicate ServingFromMal(l: Latch) {
    l.mode == OnlyMal || (l.mode == Auto && l.active == Mal)
  }

  // A call that has not begun is let make its plan (c) and then its next move (d): that is a call to MAL.
  predicate NextCallIsMal(s: System, c: Choice, d: Choice)
    requires |s.requests| == |s.phases|
  {
    var t := Step(s, c);
    Step(t, d).log == t.log + [Event(d.who, Call(Mal), d.now)]
  }

  /** The chip promises that the next browse call goes to MAL. In every reachable state that is so of a
  call planned at once exactly when the retry time has not passed, or was never set, and MAL mode has a
  backend. */
  lemma ChipTellsTruthExactlyWhen(mode: Mode, malAvailable: bool, canHeal: bool,
                                  requests: seq<Request>, cs: seq<Choice>, c: Choice, d: Choice)
    requires c.who == d.who < |requests| && Ordinary(requests[c.who])
    ensures var s := Run(Initial(mode, malAvailable, canHeal, requests), cs);
      |s.phases| == |requests| && s.requests == requests &&
      (s.phases[c.who] == Start ==>
        ((ServingFromMal(s.latch) <==> NextCallIsMal(s, c, d))
         <==> && !(mode == Auto && s.latch.retryAt.Some? && c.now >= s.latch.retryAt.value)
              && !(mode == OnlyMal && !malAvailable)))
  {
    RunKeeps(mode, malAvailable, canHeal, requests, cs);
    LatchIsLastReport(mode, malAvailable, canHeal, requests, cs);
    var s := Run(Initial(mode, malAvailable, canHeal, requests), cs);
    if s.phases[c.who] == Start { NextCall(s, c, d); }
  }

  // The first move plans; the second calls what was planned, if it has a backend.
  lemma NextCall(s: System, c: Choice, d: Choice)
    requires |s.requests| == |s.phases| && c.who == d.who < |s.phases|
    requires Ordinary(s.requests[c.who]) && s.phases[c.who] == Start
    ensures NextCallIsMal(s, c, d) <==> FirstOf(s.latch, c.now) == Mal && s.latch.malAvailable
  {
    var t := Step(s, c);
    var first := FirstOf(s.latch, c.now);
    if first == Mal && !s.latch.malAvailable {
      assert t.phases[d.who] == Finished(NoMalBackend);
    } else {
      assert t.phases[d.who] == Ready(first, FallbackOf(s.latch, first));
      assert Step(t, d).log == t.log + [Event(d.who, Call(first), d.now)];
      assert Step(t, d).log[|t.log|] == Event(d.who, Call(first), d.now);
    }
  }

  // Some call's move at a time, its backend answering badly.
  function Moves(who: nat, now: int): Choice { Choice(who, false, false, false, now) }

  /** Ten minutes after AniList failed once, nothing having been called since, the chip still says MAL and
  the next call goes to AniList. */
  lemma ChipWrongAfterRetry()
    ensures var s := Run(Initial(Auto, true, false, [Browse, Browse]), [Moves(0, 0), Moves(0, 0), Moves(0, 0)]);
      && |s.phases| == 2 && s.phases[1] == Start && ServingFromMal(s.latch)
      && !NextCallIsMal(s, Moves(1, 600), Moves(1, 600))
  {
    var cs, m := [Moves(0, 0), Moves(0, 0), Moves(0, 0)], Moves(0, 0);
    var s0 := Initial(Auto, true, false, [Browse, Browse]);
    assert cs[..2][..1][..0] == [] && cs[..2][..1] == [m] && cs[..2] == [m, m];
    assert Run(s0, cs[..2][..1]) == Step(s0, m);
    assert Run(s0, cs[..2]) == Step(Step(s0, m), m);
    var s := Step(Step(Step(s0, m), m), m);
    assert Run(s0, cs) == s;
    NextCall(s, Moves(1, 600), Moves(1, 600));
  }

  /** In MAL mode without a backend the chip says MAL and the next call ends without calling anything. */
  lemma ChipWrongWithoutBackend(now: int)
    ensures var s := Run(Initial(OnlyMal, false, false, [Browse]), []);
      && ServingFromMal(s.latch)
      && Step(s, Moves(0, now)).phases[0] == Finished(NoMalBackend)
      && Step(s, Moves(0, now)).log == [Event(0, Plan(Mal, None), now)]
  {
  }

  // ---- Confirmed absences ----

  ghost predicate AbsentConfirmed(s: System) {
    && |s.requests| == |s.phases|
    && (forall i :: 0 <= i < |s.phases| && s.phases[i] == HealNote ==> s.requests[i].Heal?)
    && forall m :: m in s.absent ==>
         exists i :: 0 <= i < |s.phases| && s.requests[i] == Heal(m)
                     && s.phases[i] == Finished(Absent) && Call(AniList) in Mine(s.log, i)
  }

  lemma AbsentStep(s: System, c: Choice)
    requires AbsentConfirmed(s) && Disciplined(s)
    ensures AbsentConfirmed(Step(s, c))
  {
    if c.who < |s.phases| {
      var t := Step(s, c);
      assert History(s.requests[c.who], s.latch.malAvailable, s.phases[c.who], Mine(s.log, c.who));
      forall m | m in t.absent
        ensures exists i :: 0 <= i < |t.phases| && t.requests[i] == Heal(m)
                            && t.phases[i] == Finished(Absent) && Call(AniList) in Mine(t.log, i)
      {
        var i :| 0 <= i < |t.phases| && t.requests[i] == Heal(m) && t.phases[i] == Finished(Absent)
                 && (if m in s.absent then Call(AniList) in Mine(s.log, i) else i == c.who);
        MineStep(s, c, i);
      }
    }
  }

  lemma {:induction false} AlwaysAbsentConfirmed(mode: Mode, malAvailable: bool, canHeal: bool,
                                                 requests: seq<Request>, cs: seq<Choice>)
    ensures AbsentConfirmed(Run(Initial(mode, malAvailable, canHeal, requests), cs))
  {
    if cs != [] {
      AlwaysAbsentConfirmed(mode, malAvailable, canHeal, requests, cs[..|cs| - 1]);
      AlwaysDisciplined(mode, malAvailable, canHeal, requests, cs[..|cs| - 1]);
      AbsentStep(Run(Initial(mode, malAvailable, canHeal, requests), cs[..|cs| - 1]), cs[|cs| - 1]);
    }
  }

  /** A MAL id is remembered as absent only after AniList was asked about it, and from then on a
  heal of it ends as absent without reaching any backend. */
  lemma AbsencesConfirmed(mode: Mode, malAvailable: bool, canHeal: bool,
                          requests: seq<Request>, cs: seq<Choice>, c: Choice)
    ensures var s := Run(Initial(mode, malAvailable, canHeal, requests), cs);
      && AbsentConfirmed(s) && |s.phases| == |requests|
      && (c.who < |requests| && s.phases[c.who] == Start && requests[c.who].Heal? && requests[c.who].malId in s.absent
          && canHeal && requests[c.who].malId > 0
          ==> Step(s, c).phases[c.who] == Finished(Absent) && Step(s, c).log == s.log)
  {
    RunKeeps(mode, malAvailable, canHeal, requests, cs);
    AlwaysAbsentConfirmed(mode, malAvailable, canHeal, requests, cs);
  }
}
