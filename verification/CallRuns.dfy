/** The engine over whole runs, seen from one thread, one PJSIP call id or one call at a time: what each is now follows
    from the steps that concern it, whatever else happened in between. */
module CallRuns {
  import opened Bytes
  import opened EngineCalls

  /** How PJSIP numbers the states of a call: 0 to 3 before the answer, 4 and 5 from the answer on, 6 at the end. */
  function Reported(code: int): Option<CallState> {
    match code
    case 0 => Some(Ringing)
    case 1 => Some(Ringing)
    case 2 => Some(Ringing)
    case 3 => Some(Ringing)
    case 4 => Some(InCall)
    case 5 => Some(InCall)
    case 6 => Some(Ended)
    case _ => None
  }

  // ----- one thread, one PJSIP id -----

  predicate Acts(s: Step, t: nat) {
    !s.Hold? && !s.Shutdown? && !s.Tick? && s.thread == t
  }

  function FetchIds(steps: seq<Step>): nat
    decreases |steps|
  {
    if steps == [] then 0 else FetchIds(steps[..|steps| - 1]) + if steps[|steps| - 1].FetchId? then 1 else 0
  }

  /** What the thread is in the middle of, from its own steps. */
  function Doing(steps: seq<Step>, t: nat): Option<Thread>
    decreases |steps|, 1
  {
    if steps == [] then None
    else
      var init, last := steps[..|steps| - 1], steps[|steps| - 1];
      if !Acts(last, t) then Doing(init, t)
      else match (last, Doing(init, t))
        case (FetchId(_), _) => Some(Allocated((FetchIds(init) + 1) % 0x1_0000_0000))
        case (CallMade(_, pj), Some(Allocated(id))) => Some(Inserting(id, pj))
        case (InsertCall(_), Some(Inserting(id, pj))) => Some(Registering(id, pj))
        case (LookUpState(_, pj, code), _) =>
          var at, state := LeadsTo(init, pj), Reported(code);
          if at.None? || state.None? then None else Some(UpdatingState(at.value, state.value))
        case (LookUpMedia(_, pj, active), _) =>
          var at := LeadsTo(init, pj);
          if at.None? then None else Some(UpdatingMedia(at.value, active))
        case _ => None
  }

  /** The call that the PJSIP id leads to: the last one registered for it, unless its end was looked up after that, or
      the engine was shut down. */
  function LeadsTo(steps: seq<Step>, pj: int): Option<nat>
    decreases |steps|, 0
  {
    if steps == [] then None
    else
      var init, last := steps[..|steps| - 1], steps[|steps| - 1];
      if last == Shutdown || (last.LookUpState? && last.pj == pj && last.invState == 6) then None
      else if Registers(init, last, pj).Some? then Registers(init, last, pj)
      else LeadsTo(init, pj)
  }

  /** The call that the step registers for the PJSIP id. */
  function Registers(init: seq<Step>, s: Step, pj: int): Option<nat>
    decreases |init|, 2
  {
    if !s.RegisterCall? then None
    else match Doing(init, s.thread)
      case Some(Registering(id, p)) => if p == pj then Some(id) else None
      case _ => None
  }

  function ThreadAt(e: Engine, t: nat): Option<Thread> {
    if t in e.threads then Some(e.threads[t]) else None
  }

  function MapAt(e: Engine, pj: int): Option<nat> {
    if pj in e.callMap then Some(e.callMap[pj]) else None
  }

  /** The engine's threads and its call map are those that their own steps make. */
  ghost predicate ThreadsAndMap(steps: seq<Step>, e: Engine) {
    && e.issued == FetchIds(steps)
    && (forall t: nat :: ThreadAt(e, t) == Doing(steps, t))
    && (forall pj: int :: MapAt(e, pj) == LeadsTo(steps, pj))
  }

  lemma {:induction false} EveryRunLeads(steps: seq<Step>)
    requires After(steps).Some?
    ensures ThreadsAndMap(steps, After(steps).value)
    decreases |steps|
  {
    if steps != [] {
      var init, last := steps[..|steps| - 1], steps[|steps| - 1];
      EveryRunLeads(init);
      StepLeads(steps, After(init).value);
    }
  }

  lemma CodesAgree(code: int)
    ensures CallStateOf(code) == Reported(code)
    ensures CallStateOf(code) == Some(Ended) <==> code == 6
  {
  }

  lemma StepLeads(steps: seq<Step>, e: Engine)
    requires steps != [] && ThreadsAndMap(steps[..|steps| - 1], e) && Enabled(e, steps[|steps| - 1])
    ensures ThreadsAndMap(steps, Apply(e, steps[|steps| - 1]))
  {
    hide Enabled, Apply, Doing, LeadsTo, ThreadAt, MapAt, FetchIds;
    StepCounts(steps, e);
    forall t: nat ensures ThreadAt(Apply(e, steps[|steps| - 1]), t) == Doing(steps, t) {
      StepDoes(steps, e, t);
    }
    forall pj: int ensures MapAt(Apply(e, steps[|steps| - 1]), pj) == LeadsTo(steps, pj) {
      StepMaps(steps, e, pj);
    }
  }

  lemma StepCounts(steps: seq<Step>, e: Engine)
    requires steps != [] && e.issued == FetchIds(steps[..|steps| - 1]) && Enabled(e, steps[|steps| - 1])
    ensures Apply(e, steps[|steps| - 1]).issued == FetchIds(steps)
  {
  }

  lemma StepDoes(steps: seq<Step>, e: Engine, t: nat)
    requires steps != [] && ThreadsAndMap(steps[..|steps| - 1], e) && Enabled(e, steps[|steps| - 1])
    ensures ThreadAt(Apply(e, steps[|steps| - 1]), t) == Doing(steps, t)
  {
    hide CallStateOf, Reported, FetchIds, WithState, WithMedia, WithHold, LeadsTo;
    var init, last := steps[..|steps| - 1], steps[|steps| - 1];
    assert ThreadAt(e, t) == Doing(init, t);
    match last {
      case LookUpState(_, pj, code) =>
        CodesAgree(code);
        assert MapAt(e, pj) == LeadsTo(init, pj);
      case LookUpMedia(_, pj, _) => assert MapAt(e, pj) == LeadsTo(init, pj);
      case _ =>
    }
  }

  lemma StepMaps(steps: seq<Step>, e: Engine, pj: int)
    requires steps != [] && ThreadsAndMap(steps[..|steps| - 1], e) && Enabled(e, steps[|steps| - 1])
    ensures MapAt(Apply(e, steps[|steps| - 1]), pj) == LeadsTo(steps, pj)
  {
    hide CallStateOf, Reported, FetchIds, WithState, WithMedia, WithHold, Doing;
    var init, last := steps[..|steps| - 1], steps[|steps| - 1];
    assert MapAt(e, pj) == LeadsTo(init, pj);
    match last {
      case LookUpState(_, p, code) => CodesAgree(code);
      case RegisterCall(t) => assert ThreadAt(e, t) == Doing(init, t);
      case _ =>
    }
  }

  // ----- one call -----

  /** A call with a stopwatch: the seconds of the stretches that are over, and of the one that runs. */
  datatype Phone = Phone(state: CallState, held: bool, talked: nat, stretch: Option<nat>, pj: int)

  function Stopped(p: Phone): Phone {
    if p.stretch.None? then p else p.(talked := p.talked + p.stretch.value, stretch := None)
  }

  /** An answer starts a stretch, unless the call is in call; one that runs already is lost. An end stops the stretch of
      a call that is in call. */
  function Told(p: Phone, state: CallState): Phone {
    match state
    case InCall => if p.state == InCall then p else p.(state := InCall, stretch := Some(0))
    case Ringing => p.(state := Ringing)
    case stopped => if p.state == InCall then Stopped(p).(state := stopped) else p.(state := stopped)
  }

  /** Media that goes active puts a call in call, or leaves it on hold; media that stops holds it. */
  function Heard(p: Phone, active: bool): Phone {
    if active then p.(state := if p.held then OnHold else InCall) else Paused(p)
  }

  function Paused(p: Phone): Phone {
    Stopped(p).(state := OnHold, held := true)
  }

  /** A resume starts a stretch, and loses one that runs. */
  function Resumed(p: Phone): Phone {
    p.(state := InCall, held := false, stretch := Some(0))
  }

  /** The call after the steps that concern it. */
  function PhoneAfter(steps: seq<Step>, id: nat): Option<Phone>
    decreases |steps|
  {
    if steps == [] then None
    else
      var init, last := steps[..|steps| - 1], steps[|steps| - 1];
      var before := PhoneAfter(init, id);
      if last.InsertCall? then
        match Doing(init, last.thread)
        case Some(Inserting(i, pj)) => if i == id then Some(Phone(Ringing, false, 0, None, pj)) else before
        case _ => before
      else if before.None? then None
      else
        var p := before.value;
        match last
        case UpdateState(t) =>
          match Doing(init, t) {
            case Some(UpdatingState(i, state)) => Some(if i == id then Told(p, state) else p)
            case _ => before
          }
        case UpdateMedia(t) =>
          match Doing(init, t) {
            case Some(UpdatingMedia(i, active)) => Some(if i == id then Heard(p, active) else p)
            case _ => before
          }
        case Hold(i, hold) => Some(if i != id then p else if hold then Paused(p) else Resumed(p))
        case Tick(secs) => Some(if p.stretch.None? then p else p.(stretch := Some(p.stretch.value + secs)))
        case _ => before
  }

  function View(c: Call, now: nat): Phone
    requires TalkTimeFits(c, now)
  {
    Phone(c.state, c.onHold, c.accumulatedActiveSecs,
          if c.lastResumedAt.None? then None else Some(now - c.lastResumedAt.value), c.pjsipCallId)
  }

  /** The record with its time stamps is the stopwatch. */
  lemma ToldIs(c: Call, state: CallState, now: nat)
    requires TalkTimeFits(c, now)
    ensures TalkTimeFits(WithState(c, state, now), now)
    ensures View(WithState(c, state, now), now) == Told(View(c, now), state)
  {
  }

  lemma HeardIs(c: Call, active: bool, now: nat)
    requires TalkTimeFits(c, now)
    ensures TalkTimeFits(WithMedia(c, active, now), now)
    ensures View(WithMedia(c, active, now), now) == Heard(View(c, now), active)
  {
  }

  lemma HoldIs(c: Call, hold: bool, now: nat)
    requires TalkTimeFits(c, now)
    ensures TalkTimeFits(WithHold(c, hold, now), now)
    ensures View(WithHold(c, hold, now), now) == if hold then Paused(View(c, now)) else Resumed(View(c, now))
  {
  }

  lemma TickIs(c: Call, now: nat, secs: nat)
    requires TalkTimeFits(c, now)
    ensures TalkTimeFits(c, now + secs)
    ensures var p := View(c, now);
            View(c, now + secs) == if p.stretch.None? then p else p.(stretch := Some(p.stretch.value + secs))
  {
  }

  lemma NewIs(pj: int, now: nat)
    ensures var c := Call(Ringing, false, 0, None, pj, now);
            TalkTimeFits(c, now) && View(c, now) == Phone(Ringing, false, 0, None, pj)
  {
  }

  /** A clock that went back adds nothing to a stretch that ends. */
  lemma ClockWentBack(c: Call, now: nat)
    requires c.lastResumedAt.Some? && now < c.lastResumedAt.value
    ensures WithHold(c, true, now).accumulatedActiveSecs == c.accumulatedActiveSecs
  {
  }

  function PhoneOf(e: Engine, id: nat): Option<Phone>
    requires TalkTimesFit(e)
  {
    if id in e.calls then Some(View(e.calls[id], e.clock)) else None
  }

  lemma StepPhone(steps: seq<Step>, e: Engine, id: nat)
    requires steps != [] && ThreadsAndMap(steps[..|steps| - 1], e) && Enabled(e, steps[|steps| - 1])
    requires TalkTimesFit(e) && TalkTimesFit(Apply(e, steps[|steps| - 1]))
    requires PhoneOf(e, id) == PhoneAfter(steps[..|steps| - 1], id)
    ensures PhoneOf(Apply(e, steps[|steps| - 1]), id) == PhoneAfter(steps, id)
  {
    hide Doing, LeadsTo, FetchIds, CallStateOf, IdOf, WithState, WithMedia, WithHold, Told, Heard, Paused, Resumed,
      View, TalkTimeFits;
    var init, last := steps[..|steps| - 1], steps[|steps| - 1];
    match last {
      case InsertCall(t) =>
        assert ThreadAt(e, t) == Doing(init, t);
        NewIs(e.threads[t].pj, e.clock);
      case UpdateState(t) =>
        assert ThreadAt(e, t) == Doing(init, t);
        if id in e.calls {
          ToldIs(e.calls[id], e.threads[t].state, e.clock);
        }
      case UpdateMedia(t) =>
        assert ThreadAt(e, t) == Doing(init, t);
        if id in e.calls {
          HeardIs(e.calls[id], e.threads[t].active, e.clock);
        }
      case Hold(_, hold) =>
        if id in e.calls {
          HoldIs(e.calls[id], hold, e.clock);
        }
      case Tick(secs) =>
        if id in e.calls {
          TickIs(e.calls[id], e.clock, secs);
        }
      case _ =>
    }
  }

  /** In every interleaving: what each thread is doing, where each PJSIP id leads, and each call with its state, its
      hold and its seconds are what the steps about that thread, id and call make of them. */
  lemma {:induction false} EveryRunViews(steps: seq<Step>, id: nat)
    requires After(steps).Some?
    ensures ThreadsAndMap(steps, After(steps).value)
    ensures TalkTimesFit(After(steps).value) && PhoneOf(After(steps).value, id) == PhoneAfter(steps, id)
    decreases |steps|
  {
    hide ThreadsAndMap, TalkTimesFit, Apply, Enabled, PhoneOf;
    RunTalkTimes(steps);
    EveryRunLeads(steps);
    if steps == [] {
      NoPhone(id);
    } else {
      var init := steps[..|steps| - 1];
      EveryRunViews(init, id);
      StepPhone(steps, After(init).value, id);
    }
  }

  lemma NoPhone(id: nat)
    ensures TalkTimesFit(Init()) && PhoneOf(Init(), id) == None
  {
  }

  // ----- the map is complete -----

  /** The step takes away what the PJSIP id leads to: a shutdown, the look-up of its end, or another registration. */
  predicate Takes(steps: seq<Step>, j: nat, pj: int)
    requires j < |steps|
  {
    || steps[j] == Shutdown
    || (steps[j].LookUpState? && steps[j].pj == pj && steps[j].invState == 6)
    || Registers(steps[..j], steps[j], pj).Some?
  }

  /** Step k registered the call for the PJSIP id, and no later step took that away. */
  ghost predicate Stands(steps: seq<Step>, k: nat, pj: int, id: nat) {
    && k < |steps| && Registers(steps[..k], steps[k], pj) == Some(id)
    && forall j :: k < j < |steps| ==> !Takes(steps, j, pj)
  }

  lemma StandsBefore(steps: seq<Step>, k: nat, pj: int, id: nat)
    requires k + 1 < |steps|
    ensures Stands(steps, k, pj, id) <==>
              Stands(steps[..|steps| - 1], k, pj, id) && !Takes(steps, |steps| - 1, pj)
  {
    hide Registers;
    var init := steps[..|steps| - 1];
    forall j | k <= j < |init|
      ensures init[..j] == steps[..j] && init[j] == steps[j]
    {
    }
    if Stands(steps, k, pj, id) {
      forall j | k < j < |init| ensures !Takes(init, j, pj) {
        assert !Takes(steps, j, pj);
      }
    }
    if Stands(init, k, pj, id) && !Takes(steps, |steps| - 1, pj) {
      forall j | k < j < |steps| ensures !Takes(steps, j, pj) {
        assert j < |init| ==> !Takes(init, j, pj);
      }
    }
  }

  /** A PJSIP id leads to a call exactly if the call was registered for it and nothing took that away since. */
  lemma {:induction false} LeadsExactly(steps: seq<Step>, pj: int, id: nat)
    ensures LeadsTo(steps, pj) == Some(id) <==> exists k: nat :: Stands(steps, k, pj, id)
    decreases |steps|
  {
    hide Registers, Stands, Takes;
    if steps == [] {
      NothingStands(pj, id);
    } else {
      LeadsExactly(steps[..|steps| - 1], pj, id);
      StandsCases(steps, pj, id);
      TakesCases(steps, pj);
    }
  }

  lemma StandsCases(steps: seq<Step>, pj: int, id: nat)
    requires steps != []
    ensures var n := |steps| - 1;
            (exists k: nat :: Stands(steps, k, pj, id)) <==>
              || Registers(steps[..n], steps[n], pj) == Some(id)
              || (!Takes(steps, n, pj) && exists k: nat :: Stands(steps[..n], k, pj, id))
  {
    hide Registers, Stands, Takes;
    var n := |steps| - 1;
    LastStands(steps, pj, id);
    if k: nat :| Stands(steps, k, pj, id) {
      StandsInside(steps, k, pj, id);
      if k < n {
        StandsBefore(steps, k, pj, id);
      }
    }
    if k: nat :| Stands(steps[..n], k, pj, id) {
      StandsInside(steps[..n], k, pj, id);
      StandsBefore(steps, k, pj, id);
    }
  }

  lemma TakesCases(steps: seq<Step>, pj: int)
    requires steps != []
    ensures var n := |steps| - 1;
            && (Registers(steps[..n], steps[n], pj).Some? ==> Takes(steps, n, pj) && steps[n].RegisterCall?)
            && (Takes(steps, n, pj) <==> Registers(steps[..n], steps[n], pj).Some? || steps[n] == Shutdown
                                         || (steps[n].LookUpState? && steps[n].pj == pj && steps[n].invState == 6))
  {
  }

  lemma NothingStands(pj: int, id: nat)
    ensures forall k :: !Stands([], k, pj, id)
  {
  }

  lemma StandsInside(steps: seq<Step>, k: nat, pj: int, id: nat)
    requires Stands(steps, k, pj, id)
    ensures k < |steps|
  {
  }

  lemma LastStands(steps: seq<Step>, pj: int, id: nat)
    requires steps != []
    ensures var n := |steps| - 1; Stands(steps, n, pj, id) <==> Registers(steps[..n], steps[n], pj) == Some(id)
  {
  }

  /** The call was registered in some step, or a thread is about to do so. */
  ghost predicate RegisteredOrHeld(steps: seq<Step>, pj: int, id: nat) {
    || (exists k: nat :: k < |steps| && Registers(steps[..k], steps[k], pj) == Some(id))
    || (exists t :: Doing(steps, t) == Some(Registering(id, pj)))
  }

  lemma {:induction false} InsertedRegistered(steps: seq<Step>, id: nat)
    requires After(steps).Some? && PhoneAfter(steps, id).Some?
    ensures RegisteredOrHeld(steps, PhoneAfter(steps, id).value.pj, id)
    decreases |steps|
  {
    hide RegisteredOrHeld, Doing, Registers, Apply, Told, Heard, Paused, Resumed;
    var init, last := steps[..|steps| - 1], steps[|steps| - 1];
    var pj := PhoneAfter(steps, id).value.pj;
    if last.InsertCall? && Doing(init, last.thread) == Some(Inserting(id, pj)) {
      NowHeld(steps, pj, id);
    } else {
      SamePj(steps, id);
      InsertedRegistered(init, id);
      StillRegistered(steps, pj, id);
    }
  }

  /** Only its insertion gives a call its PJSIP id. */
  lemma SamePj(steps: seq<Step>, id: nat)
    requires steps != [] && PhoneAfter(steps, id).Some?
    ensures var init, last, pj := steps[..|steps| - 1], steps[|steps| - 1], PhoneAfter(steps, id).value.pj;
            || (last.InsertCall? && Doing(init, last.thread) == Some(Inserting(id, pj)))
            || (PhoneAfter(init, id).Some? && PhoneAfter(init, id).value.pj == pj)
  {
    hide Doing;
  }

  lemma NowHeld(steps: seq<Step>, pj: int, id: nat)
    requires steps != [] && steps[|steps| - 1].InsertCall?
    requires Doing(steps[..|steps| - 1], steps[|steps| - 1].thread) == Some(Inserting(id, pj))
    ensures RegisteredOrHeld(steps, pj, id)
  {
    assert Doing(steps, steps[|steps| - 1].thread) == Some(Registering(id, pj));
  }

  lemma StillRegistered(steps: seq<Step>, pj: int, id: nat)
    requires steps != [] && After(steps).Some? && RegisteredOrHeld(steps[..|steps| - 1], pj, id)
    ensures RegisteredOrHeld(steps, pj, id)
  {
    hide Doing, Registers, Apply, ThreadsAndMap;
    var n := |steps| - 1;
    var init := steps[..n];
    if k: nat :| k < n && Registers(init[..k], init[k], pj) == Some(id) {
      assert init[..k] == steps[..k] && init[k] == steps[k];
    } else {
      var t :| Doing(init, t) == Some(Registering(id, pj));
      EveryRunLeads(init);
      OwnStepRegisters(steps, After(init).value, t, pj, id);
    }
  }

  /** The only step of a thread that is about to register a call is to register it. */
  lemma OwnStepRegisters(steps: seq<Step>, e: Engine, t: nat, pj: int, id: nat)
    requires steps != [] && ThreadsAndMap(steps[..|steps| - 1], e) && Enabled(e, steps[|steps| - 1])
    requires Doing(steps[..|steps| - 1], t) == Some(Registering(id, pj))
    ensures var n := |steps| - 1;
            Registers(steps[..n], steps[n], pj) == Some(id) || Doing(steps, t) == Some(Registering(id, pj))
  {
    assert ThreadAt(e, t) == Some(Registering(id, pj));
  }

  /** In every interleaving: a call that is in the table, that no thread is about to register, and whose entry no later
      step took away, is what its PJSIP id leads to. */
  lemma EveryCallLeads(steps: seq<Step>, id: nat)
    requires After(steps).Some? && id in After(steps).value.calls
    requires var pj := After(steps).value.calls[id].pjsipCallId;
             && (forall t :: t in After(steps).value.threads ==> After(steps).value.threads[t] != Registering(id, pj))
             && forall k, j | 0 <= k < j < |steps| ::
                  Registers(steps[..k], steps[k], pj) == Some(id) ==> !Takes(steps, j, pj)
    ensures var e := After(steps).value;
            e.calls[id].pjsipCallId in e.callMap && e.callMap[e.calls[id].pjsipCallId] == id
  {
    hide Doing, Registers, Apply, Takes, PhoneAfter, LeadsTo;
    var e := After(steps).value;
    var pj := e.calls[id].pjsipCallId;
    EveryRunViews(steps, id);
    InsertedRegistered(steps, id);
    forall t ensures Doing(steps, t) != Some(Registering(id, pj)) {
      assert ThreadAt(e, t) == Doing(steps, t);
    }
    var k: nat :| k < |steps| && Registers(steps[..k], steps[k], pj) == Some(id);
    assert Stands(steps, k, pj, id);
    LeadsExactly(steps, pj, id);
    assert MapAt(e, pj) == LeadsTo(steps, pj);
  }
}
