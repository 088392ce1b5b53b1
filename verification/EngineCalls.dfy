/** The engine's call table and PJSIP call map, changed by any number of threads.

    Each section under one mutex is one step; between two sections of a thread any other thread may run. */
module EngineCalls {
  import opened Bytes

  const ID_COUNT: nat := 0x1_0000_0000

  datatype CallState = Ringing | InCall | OnHold | Ended

  /** createdAt is not in the source: it is the clock when the call was put in the table. */
  datatype Call = Call(state: CallState, onHold: bool, accumulatedActiveSecs: nat, lastResumedAt: Option<nat>,
                       pjsipCallId: int, createdAt: nat)

  /** Where a thread stands between two lock sections. */
  datatype Thread =
    | Allocated(id: nat)                        // has an id from NEXT_CALL_ID, the PJSIP call id is not known yet
    | Inserting(id: nat, pj: int)               // about to lock CALLS
    | Registering(id: nat, pj: int)             // about to lock PJSIP_CALL_MAP
    | UpdatingState(id: nat, state: CallState)  // on_call_state, about to lock CALLS
    | UpdatingMedia(id: nat, active: bool)      // on_call_media, about to lock CALLS

  datatype Engine = Engine(calls: map<nat, Call>, callMap: map<int, nat>, issued: nat, clock: nat,
                           threads: map<nat, Thread>)

  datatype Step =
    | FetchId(thread: nat)
    | CallMade(thread: nat, pj: int)
    | CallFailed(thread: nat)
    | InsertCall(thread: nat)
    | RegisterCall(thread: nat)
    | LookUpState(thread: nat, pj: int, invState: int)
    | UpdateState(thread: nat)
    | LookUpMedia(thread: nat, pj: int, active: bool)
    | UpdateMedia(thread: nat)
    | Hold(id: nat, hold: bool)
    | Shutdown
    | Tick(secs: nat)

  function Init(): Engine {
    Engine(map[], map[], 0, 0, map[])
  }

  /** What fetch_add on the 32-bit counter returns after n earlier calls; the counter starts at 1. */
  function IdOf(n: nat): nat {
    (n + 1) % ID_COUNT
  }

  function CallStateOf(invState: int): Option<CallState> {
    if 0 <= invState <= 3 then Some(Ringing)
    else if invState == 4 || invState == 5 then Some(InCall)
    else if invState == 6 then Some(Ended)
    else None
  }

  function SaturatingSub(a: nat, b: nat): nat {
    if a >= b then a - b else 0
  }

  /** Closes the open interval, if there is one. */
  function Pause(call: Call, now: nat): Call {
    if call.lastResumedAt.None? then call
    else call.(accumulatedActiveSecs := call.accumulatedActiveSecs + SaturatingSub(now, call.lastResumedAt.value),
               lastResumedAt := None)
  }

  function WithState(call: Call, state: CallState, now: nat): Call {
    var updated := call.(state := state);
    if state == InCall && call.state != InCall then updated.(lastResumedAt := Some(now))
    else if (state == Ended || state == OnHold) && call.state == InCall then Pause(updated, now)
    else updated
  }

  function WithMedia(call: Call, active: bool, now: nat): Call {
    var oldOnHold := call.onHold;
    if active then
      if call.onHold then call.(state := OnHold)
      else
        var updated := call.(state := InCall);
        if oldOnHold then updated.(lastResumedAt := Some(now)) else updated
    else Pause(call.(onHold := true, state := OnHold), now)
  }

  function WithHold(call: Call, hold: bool, now: nat): Call {
    if hold then Pause(call.(onHold := true, state := OnHold), now)
    else call.(onHold := false, state := InCall, lastResumedAt := Some(now))
  }

  predicate Enabled(e: Engine, s: Step) {
    match s
    case FetchId(t) => t !in e.threads
    case CallMade(t, pj) => t in e.threads && e.threads[t].Allocated?
    case CallFailed(t) => t in e.threads && e.threads[t].Allocated?
    case InsertCall(t) => t in e.threads && e.threads[t].Inserting?
    case RegisterCall(t) => t in e.threads && e.threads[t].Registering?
    case LookUpState(t, _, _) => t !in e.threads
    case UpdateState(t) => t in e.threads && e.threads[t].UpdatingState?
    case LookUpMedia(t, _, _) => t !in e.threads
    case UpdateMedia(t) => t in e.threads && e.threads[t].UpdatingMedia?
    case _ => true
  }

  function Apply(e: Engine, s: Step): Engine
    requires Enabled(e, s)
  {
    match s
    case FetchId(t) => e.(issued := e.issued + 1, threads := e.threads[t := Allocated(IdOf(e.issued))])
    case CallMade(t, pj) => e.(threads := e.threads[t := Inserting(e.threads[t].id, pj)])
    case CallFailed(t) => e.(threads := e.threads - {t})
    case InsertCall(t) =>
      var Inserting(id, pj) := e.threads[t];
      e.(calls := e.calls[id := Call(Ringing, false, 0, None, pj, e.clock)],
         threads := e.threads[t := Registering(id, pj)])
    case RegisterCall(t) =>
      var Registering(id, pj) := e.threads[t];
      e.(callMap := e.callMap[pj := id], threads := e.threads - {t})
    case LookUpState(t, pj, invState) =>
      var state := CallStateOf(invState);
      if state.None? || pj !in e.callMap then e
      else
        e.(callMap := if state.value == Ended then e.callMap - {pj} else e.callMap,
           threads := e.threads[t := UpdatingState(e.callMap[pj], state.value)])
    case UpdateState(t) =>
      var UpdatingState(id, state) := e.threads[t];
      e.(calls := if id in e.calls then e.calls[id := WithState(e.calls[id], state, e.clock)] else e.calls,
         threads := e.threads - {t})
    case LookUpMedia(t, pj, active) =>
      if pj !in e.callMap then e
      else e.(threads := e.threads[t := UpdatingMedia(e.callMap[pj], active)])
    case UpdateMedia(t) =>
      var UpdatingMedia(id, active) := e.threads[t];
      e.(calls := if id in e.calls then e.calls[id := WithMedia(e.calls[id], active, e.clock)] else e.calls,
         threads := e.threads - {t})
    case Hold(id, hold) =>
      e.(calls := if id in e.calls then e.calls[id := WithHold(e.calls[id], hold, e.clock)] else e.calls)
    case Shutdown => e.(callMap := map[])
    case Tick(secs) => e.(clock := e.clock + secs)
  }

  // ----- the call map -----

  /** The map is injective, and each entry leads to a call that is in the table, has that PJSIP id and has
      not ended. */
  ghost predicate MapSound(e: Engine) {
    && (forall p, q :: p in e.callMap && q in e.callMap && p != q ==> e.callMap[p] != e.callMap[q])
    && (forall p :: p in e.callMap ==>
          e.callMap[p] in e.calls && e.calls[e.callMap[p]].pjsipCallId == p && e.calls[e.callMap[p]].state != Ended)
  }

  predicate Issued(issued: nat, id: nat) {
    id < ID_COUNT && (id + ID_COUNT - 1) % ID_COUNT < issued
  }

  ghost predicate Mapped(e: Engine, id: nat) {
    exists p :: p in e.callMap && e.callMap[p] == id
  }

  /** The thread is bringing a call into being. */
  predicate Creates(t: Thread) {
    t.Allocated? || t.Inserting? || t.Registering?
  }

  ghost predicate ThreadSound(e: Engine, t: Thread) {
    match t
    case Allocated(id) => Issued(e.issued, id) && id !in e.calls
    case Inserting(id, _) => Issued(e.issued, id) && id !in e.calls
    case Registering(id, pj) =>
      id in e.calls && e.calls[id].pjsipCallId == pj && e.calls[id].state != Ended && !Mapped(e, id)
    case UpdatingState(id, state) => id in e.calls && (state == Ended ==> !Mapped(e, id))
    case UpdatingMedia(id, _) => id in e.calls
  }

  /** A call that is being ended is in the hands of no creating thread. */
  ghost predicate Apart(t: Thread, u: Thread) {
    Creates(t) && (Creates(u) || (u.UpdatingState? && u.state == Ended)) ==> t.id != u.id
  }

  ghost predicate Inv(e: Engine) {
    && MapSound(e)
    && (forall id :: id in e.calls ==> Issued(e.issued, id))
    && (forall t :: t in e.threads ==> ThreadSound(e, e.threads[t]))
    && (forall t, u :: t in e.threads && u in e.threads && t != u ==> Apart(e.threads[t], e.threads[u]))
  }

  lemma InitSound()
    ensures Inv(Init()) && TalkTimesFit(Init())
  {
  }

  lemma FreshId(e: Engine)
    requires e.issued < ID_COUNT
    ensures !Issued(e.issued, IdOf(e.issued))
    ensures Issued(e.issued + 1, IdOf(e.issued))
    ensures forall id :: Issued(e.issued, id) ==> Issued(e.issued + 1, id)
  {
  }

  lemma FetchIdSound(e: Engine, t: nat)
    requires Inv(e) && Enabled(e, FetchId(t)) && e.issued < ID_COUNT
    ensures Inv(Apply(e, FetchId(t)))
  {
    FreshId(e);
    hide Issued, IdOf;
  }

  lemma CallMadeSound(e: Engine, t: nat, pj: int)
    requires Inv(e) && Enabled(e, CallMade(t, pj))
    ensures Inv(Apply(e, CallMade(t, pj)))
  {
    hide Issued;
  }

  lemma CallFailedSound(e: Engine, t: nat)
    requires Inv(e) && Enabled(e, CallFailed(t))
    ensures Inv(Apply(e, CallFailed(t)))
  {
    hide Issued;
  }

  lemma InsertCallSound(e: Engine, t: nat)
    requires Inv(e) && Enabled(e, InsertCall(t))
    ensures Inv(Apply(e, InsertCall(t)))
  {
    hide Issued;
    var e', id := Apply(e, InsertCall(t)), e.threads[t].id;
    assert !Mapped(e, id);
    forall u, w | u in e'.threads && w in e'.threads && u != w ensures Apart(e'.threads[u], e'.threads[w]) {
      assert Apart(e.threads[u], e.threads[w]);
    }
    forall u | u in e'.threads ensures ThreadSound(e', e'.threads[u]) {
      assert ThreadSound(e, e.threads[u]);
      assert u != t ==> Apart(e.threads[t], e.threads[u]);
    }
  }

  lemma RegisterCallSound(e: Engine, t: nat)
    requires Inv(e) && Enabled(e, RegisterCall(t))
    ensures Inv(Apply(e, RegisterCall(t)))
  {
    hide Issued;
    var e', id := Apply(e, RegisterCall(t)), e.threads[t].id;
    assert ThreadSound(e, e.threads[t]);
    forall u | u in e'.threads ensures ThreadSound(e', e'.threads[u]) {
      assert ThreadSound(e, e.threads[u]) && Apart(e.threads[t], e.threads[u]);
    }
  }

  lemma LookUpStateSound(e: Engine, t: nat, pj: int, invState: int)
    requires Inv(e) && Enabled(e, LookUpState(t, pj, invState))
    ensures Inv(Apply(e, LookUpState(t, pj, invState)))
  {
    hide Issued, CallStateOf;
    if pj in e.callMap {
      var e', id := Apply(e, LookUpState(t, pj, invState)), e.callMap[pj];
      assert Mapped(e, id);
      forall u | u in e'.threads && u != t && t in e'.threads
        ensures ThreadSound(e', e'.threads[u]) && Apart(e'.threads[u], e'.threads[t]) {
        assert ThreadSound(e, e.threads[u]);
      }
    }
  }

  lemma LookUpMediaSound(e: Engine, t: nat, pj: int, active: bool)
    requires Inv(e) && Enabled(e, LookUpMedia(t, pj, active))
    ensures Inv(Apply(e, LookUpMedia(t, pj, active)))
  {
    hide Issued;
  }

  lemma UpdateStateSound(e: Engine, t: nat)
    requires Inv(e) && Enabled(e, UpdateState(t))
    ensures Inv(Apply(e, UpdateState(t)))
  {
    hide Issued, SaturatingSub;
    var e' := Apply(e, UpdateState(t));
    assert ThreadSound(e, e.threads[t]);
    forall u | u in e'.threads ensures ThreadSound(e', e'.threads[u]) {
      assert ThreadSound(e, e.threads[u]) && Apart(e.threads[u], e.threads[t]);
    }
  }

  lemma UpdateMediaSound(e: Engine, t: nat)
    requires Inv(e) && Enabled(e, UpdateMedia(t))
    ensures Inv(Apply(e, UpdateMedia(t)))
  {
    hide Issued, SaturatingSub;
  }

  lemma HoldSound(e: Engine, id: nat, hold: bool)
    requires Inv(e)
    ensures Inv(Apply(e, Hold(id, hold)))
  {
    hide Issued, SaturatingSub;
  }

  lemma ShutdownSound(e: Engine)
    requires Inv(e)
    ensures Inv(Apply(e, Shutdown))
  {
    hide Issued;
  }

  lemma TickSound(e: Engine, secs: nat)
    requires Inv(e)
    ensures Inv(Apply(e, Tick(secs)))
  {
    hide Issued;
  }

  /** Every lock section of every thread keeps the invariant, as long as fewer than 2^32 ids were handed out. */
  lemma StepSound(e: Engine, s: Step)
    requires Inv(e) && Enabled(e, s) && e.issued < ID_COUNT
    ensures Inv(Apply(e, s))
  {
    hide Inv, Apply, Enabled;
    match s {
      case FetchId(t) => FetchIdSound(e, t);
      case CallMade(t, pj) => CallMadeSound(e, t, pj);
      case CallFailed(t) => CallFailedSound(e, t);
      case InsertCall(t) => InsertCallSound(e, t);
      case RegisterCall(t) => RegisterCallSound(e, t);
      case LookUpState(t, pj, invState) => LookUpStateSound(e, t, pj, invState);
      case LookUpMedia(t, pj, active) => LookUpMediaSound(e, t, pj, active);
      case UpdateState(t) => UpdateStateSound(e, t);
      case UpdateMedia(t) => UpdateMediaSound(e, t);
      case Hold(id, hold) => HoldSound(e, id, hold);
      case Shutdown => ShutdownSound(e);
      case Tick(secs) => TickSound(e, secs);
    }
  }

  // ----- talk time -----

  /** Accumulated talk time and the open interval together fit between the call's creation and now. */
  ghost predicate TalkTimeFits(call: Call, now: nat) {
    && call.createdAt <= now
    && (call.lastResumedAt.Some? ==> call.createdAt <= call.lastResumedAt.value <= now)
    && call.accumulatedActiveSecs + (if call.lastResumedAt.Some? then now - call.lastResumedAt.value else 0)
       <= now - call.createdAt
  }

  ghost predicate TalkTimesFit(e: Engine) {
    forall id :: id in e.calls ==> TalkTimeFits(e.calls[id], e.clock)
  }

  lemma StepTalkTime(e: Engine, s: Step)
    requires TalkTimesFit(e) && Enabled(e, s)
    ensures TalkTimesFit(Apply(e, s))
  {
    hide CallStateOf, IdOf;
  }

  /** What the call has talked up to now. */
  function TalkTime(call: Call, now: nat): nat {
    call.accumulatedActiveSecs + (if call.lastResumedAt.Some? then SaturatingSub(now, call.lastResumedAt.value) else 0)
  }

  /** No update changes the talk time, except that a resume drops an interval that is still open. */
  lemma TalkTimeKept(call: Call, state: CallState, active: bool, hold: bool, now: nat)
    ensures TalkTime(WithState(call, state, now), now) ==
            if state == InCall && call.state != InCall then call.accumulatedActiveSecs else TalkTime(call, now)
    ensures TalkTime(WithMedia(call, active, now), now) == TalkTime(call, now)
    ensures TalkTime(WithHold(call, hold, now), now) == if hold then TalkTime(call, now) else call.accumulatedActiveSecs
  {
  }

  /** Media going active never opens an interval: the branch that would is dead. */
  lemma MediaNeverResumes(call: Call, active: bool, now: nat)
    ensures WithMedia(call, active, now).lastResumedAt == if active then call.lastResumedAt else None
  {
  }

  /** Talk time goes on after the end of a call that was put on hold before it was answered: active media puts it
      back on hold without closing the interval that the answer opened, and the end closes it only when in call. */
  lemma HeldCallKeepsCounting(ringing: Call, answered: nat, ended: nat, later: nat)
    requires ringing.state == Ringing && ringing.lastResumedAt == None && answered <= ended <= later
    ensures var held := WithHold(ringing, true, answered);
            var inCall := WithMedia(WithState(held, InCall, answered), true, answered);
            var end := WithState(inCall, Ended, ended);
            && inCall.state == OnHold && end.state == Ended
            && TalkTime(end, later) == ringing.accumulatedActiveSecs + (later - answered)
  {
  }

  // ----- runs -----

  /** The engine after the steps in order, or None when one of them could not be taken. */
  function After(steps: seq<Step>): Option<Engine>
    decreases |steps|
  {
    if steps == [] then Some(Init()) else
      var before := After(steps[..|steps| - 1]);
      if before.None? || !Enabled(before.value, steps[|steps| - 1]) then None
      else Some(Apply(before.value, steps[|steps| - 1]))
  }

  /** However the lock sections of any number of threads interleave, while fewer than 2^32 call ids have been
      handed out: the call map is sound, and no call counts more talk time than it has existed. */
  lemma {:induction false} EveryRunSound(steps: seq<Step>)
    requires After(steps).Some? && After(steps).value.issued < ID_COUNT
    ensures var e := After(steps).value;
            Inv(e) && MapSound(e) && TalkTimesFit(e)
    decreases |steps|
  {
    hide Inv, MapSound, TalkTimesFit, Apply, Enabled, Init;
    if steps == [] {
      InitSound();
    } else {
      var before, s := After(steps[..|steps| - 1]).value, steps[|steps| - 1];
      IssuedGrows(before, s);
      EveryRunSound(steps[..|steps| - 1]);
      StepSound(before, s);
      StepTalkTime(before, s);
    }
    InvMap(After(steps).value);
  }

  lemma InvMap(e: Engine)
    requires Inv(e)
    ensures MapSound(e)
  {
  }

  lemma IssuedGrows(e: Engine, s: Step)
    requires Enabled(e, s)
    ensures e.issued <= Apply(e, s).issued
  {
  }

  // ----- when an end stops the count -----

  /** If the call ends now, or has ended, its talk time stays what it is now. */
  ghost predicate StopsAtEnd(call: Call, now: nat) {
    forall later :: later >= now ==> TalkTime(WithState(call, Ended, now), later) == TalkTime(call, now)
  }

  /** The end of a call stops its count if and only if no interval is open or the call is in call. */
  lemma EndStopsExactly(call: Call, now: nat)
    requires call.lastResumedAt.Some? ==> call.lastResumedAt.value <= now
    ensures StopsAtEnd(call, now) <==> call.lastResumedAt.None? || call.state == InCall
  {
    if call.lastResumedAt.Some? && call.state != InCall {
      assert TalkTime(WithState(call, Ended, now), now + 1) == TalkTime(call, now) + 1;
    }
  }

  // ----- calls that have ended -----

  /** The ids of ended calls after the step: those whose end has been written, until the id names a new call. */
  function OverAfter(e: Engine, over: set<nat>, s: Step): set<nat>
    requires Enabled(e, s)
  {
    match s
    case UpdateState(t) =>
      if e.threads[t].id in e.calls && e.threads[t].state == Ended then over + {e.threads[t].id} else over
    case InsertCall(t) => over - {e.threads[t].id}
    case _ => over
  }

  /** No call that has ended has an open interval. */
  predicate Closed(e: Engine, over: set<nat>) {
    forall id :: id in over && id in e.calls ==> e.calls[id].lastResumedAt.None?
  }

  /** An end that leaves the interval open, or an answer or a resume that reaches a call after its end. */
  predicate LeavesOpen(e: Engine, over: set<nat>, s: Step)
    requires Enabled(e, s)
  {
    match s
    case UpdateState(t) =>
      var id, state := e.threads[t].id, e.threads[t].state;
      && id in e.calls && e.calls[id].state != InCall
      && ((state == Ended && e.calls[id].lastResumedAt.Some?) || (state == InCall && id in over))
    case Hold(id, hold) => id in e.calls && !hold && id in over
    case _ => false
  }

  lemma StepCloses(e: Engine, over: set<nat>, s: Step)
    requires Closed(e, over) && Enabled(e, s)
    ensures Closed(Apply(e, s), OverAfter(e, over, s)) <==> !LeavesOpen(e, over, s)
  {
    hide CallStateOf, IdOf, SaturatingSub;
    match s
    case UpdateState(t) =>
      var id := e.threads[t].id;
      if id in e.calls {
        assert Apply(e, s).calls[id] == WithState(e.calls[id], e.threads[t].state, e.clock);
      }
    case UpdateMedia(t) =>
      var id := e.threads[t].id;
      if id in e.calls {
        assert Apply(e, s).calls[id] == WithMedia(e.calls[id], e.threads[t].active, e.clock);
      }
    case Hold(id, hold) =>
      if id in e.calls {
        assert Apply(e, s).calls[id] == WithHold(e.calls[id], hold, e.clock);
      }
    case _ =>
  }

  /** From one moment to the next the talk time of an ended call is the same. */
  predicate TalkTimesStay(e: Engine, next: Engine, over: set<nat>) {
    forall id :: id in over && id in e.calls && id in next.calls ==>
      TalkTime(next.calls[id], next.clock) == TalkTime(e.calls[id], e.clock)
  }

  lemma StepStays(e: Engine, over: set<nat>, s: Step)
    requires Closed(e, over) && Enabled(e, s)
    ensures TalkTimesStay(e, Apply(e, s), over * OverAfter(e, over, s))
  {
    hide CallStateOf, IdOf;
  }

  /** However long nothing but the clock moves, the talk time of every ended call is the same. */
  ghost predicate CountsStopped(e: Engine, over: set<nat>) {
    forall secs: nat :: TalkTimesStay(e, Apply(e, Tick(secs)), over)
  }

  lemma StoppedMeans(e: Engine, over: set<nat>)
    requires TalkTimesFit(e)
    ensures CountsStopped(e, over) <==> Closed(e, over)
  {
    if id :| id in over && id in e.calls && e.calls[id].lastResumedAt.Some? {
      var later := Apply(e, Tick(1));
      assert TalkTime(later.calls[id], later.clock) == TalkTime(e.calls[id], e.clock) + 1;
      assert !TalkTimesStay(e, later, over);
    }
  }

  // ----- over whole runs -----

  lemma {:induction false} RunTalkTimes(steps: seq<Step>)
    requires After(steps).Some?
    ensures TalkTimesFit(After(steps).value)
    decreases |steps|
  {
    hide TalkTimesFit, Apply, Enabled, Init, Inv;
    if steps == [] {
      InitSound();
    } else {
      RunTalkTimes(steps[..|steps| - 1]);
      StepTalkTime(After(steps[..|steps| - 1]).value, steps[|steps| - 1]);
    }
  }

  /** The ids of the calls that have ended in the run. */
  function Over(steps: seq<Step>): set<nat>
    requires After(steps).Some?
    decreases |steps|
  {
    if steps == [] then {} else
      var init, last := steps[..|steps| - 1], steps[|steps| - 1];
      OverAfter(After(init).value, Over(init), last)
  }

  /** At every moment of the run the counts of the ended calls stand still, and none changes from one to the next. */
  ghost predicate StayStopped(steps: seq<Step>)
    requires After(steps).Some?
    decreases |steps|
  {
    && CountsStopped(After(steps).value, Over(steps))
    && (steps != [] ==>
          var init := steps[..|steps| - 1];
          && StayStopped(init)
          && TalkTimesStay(After(init).value, After(steps).value, Over(init) * Over(steps)))
  }

  predicate NoneLeftOpen(steps: seq<Step>)
    requires After(steps).Some?
    decreases |steps|
  {
    steps != [] ==>
      var init, last := steps[..|steps| - 1], steps[|steps| - 1];
      NoneLeftOpen(init) && !LeavesOpen(After(init).value, Over(init), last)
  }

  /** However the lock sections interleave: the talk time of a call never changes after its end if and only if no step
      of the run ends a call that has an open interval and is not in call, answers a call after its end, or resumes
      one after its end. */
  lemma {:induction false} EndedCallsStop(steps: seq<Step>)
    requires After(steps).Some?
    ensures StayStopped(steps) <==> NoneLeftOpen(steps)
    ensures NoneLeftOpen(steps) ==> Closed(After(steps).value, Over(steps))
    decreases |steps|
  {
    hide TalkTimesFit, Apply, Enabled, Closed, CountsStopped, LeavesOpen, OverAfter, TalkTimesStay;
    RunTalkTimes(steps);
    StoppedMeans(After(steps).value, Over(steps));
    if steps == [] {
      NoneOver();
    } else {
      var init, last := steps[..|steps| - 1], steps[|steps| - 1];
      EndedCallsStop(init);
      if NoneLeftOpen(init) {
        StepCloses(After(init).value, Over(init), last);
        StepStays(After(init).value, Over(init), last);
      }
    }
  }

  lemma NoneOver()
    ensures Closed(Init(), {})
  {
  }

  /** A call that is resumed after its end, or answered by a thread that was late, counts again. */
  lemma ReopenedCallCounts(ended: Call, now: nat, later: nat)
    requires ended.state == Ended && now <= later
    ensures TalkTime(WithHold(ended, false, now), later) == ended.accumulatedActiveSecs + (later - now)
    ensures TalkTime(WithState(ended, InCall, now), later) == ended.accumulatedActiveSecs + (later - now)
  {
  }
}
