/** Recording as the engine drives it: the call table, the PJSIP call map, the shim's slots and the events sent, one
    command or callback at a time, between engine_init and engine_shutdown. */
module EngineRecording {
  import opened Bytes
  import opened EngineCalls
  import opened RecorderSlots

  datatype Tracked = Tracked(call: Call, recordingPath: Option<string>)

  /** The payloads carry the call id only; the slot is added here. */
  datatype Event =
    | RecordingStarted(id: nat, slot: int)
    | RecordingStopped(id: nat, slot: int)
    | RecordingSaved(id: nat, slot: int)
    | RecordingError(id: nat, slot: int)

  datatype Calls = Calls(table: map<nat, Tracked>, callMap: map<int, nat>, shim: Shim, events: seq<Event>)

  datatype ErrorCode = Ok | NotFound | MediaNotReady | InvalidUtf8 | InternalError

  datatype Command =
    | NewCall(id: nat, pj: int, now: nat)
    | OnCallState(pj: int, invState: int, now: nat)
    | OnCallMedia(pj: int, active: bool, now: nat)
    | CallHold(id: nat, hold: bool, now: nat)
    | StartRecording(id: nat, path: string, attempt: Attempt)
    | StopRecording(id: nat)

  function Idle(maxCalls: nat): Calls {
    Calls(map[], map[], Shim(AllFree(maxCalls), {}), [])
  }

  // ----- starting and stopping -----

  function StartCode(c: Calls, id: nat, path: string, a: Attempt): ErrorCode {
    if id !in c.table then NotFound
    else
      var call := c.table[id].call;
      if call.state == Ended then NotFound
      else if call.state != InCall then MediaNotReady
      else if '\0' in path then InvalidUtf8
      else if IsRecording(c.shim, call.pjsipCallId) || !Starts(c.shim, call.pjsipCallId, path, a) then InternalError
      else Ok
  }

  function AfterStart(c: Calls, id: nat, path: string, a: Attempt): Calls {
    var code := StartCode(c, id, path, a);
    if code == Ok then
      var pj := c.table[id].call.pjsipCallId;
      c.(shim := Started(c.shim, pj, path, a), table := c.table[id := c.table[id].(recordingPath := Some(path))],
         events := c.events + [RecordingStarted(id, pj)])
    else if code == InternalError && !IsRecording(c.shim, c.table[id].call.pjsipCallId) then
      c.(events := c.events + [RecordingError(id, c.table[id].call.pjsipCallId)])
    else c
  }

  /** The call has a path and its slot is recording; the path stays when the recording stops. */
  predicate Stops(c: Calls, id: nat) {
    id in c.table && c.table[id].recordingPath.Some? && IsRecording(c.shim, c.table[id].call.pjsipCallId)
  }

  function AfterStop(c: Calls, id: nat): Calls {
    if !Stops(c, id) then c
    else
      var pj := c.table[id].call.pjsipCallId;
      c.(shim := Stopped(c.shim, pj), events := c.events + [RecordingStopped(id, pj), RecordingSaved(id, pj)])
  }

  // ----- calls -----

  function WithCall(c: Calls, id: nat, call: Call): Calls {
    if id !in c.table then c else c.(table := c.table[id := c.table[id].(call := call)])
  }

  function AfterCallState(c: Calls, pj: int, invState: int, now: nat): Calls {
    var state := CallStateOf(invState);
    if state.None? || pj !in c.callMap then c
    else
      var id := c.callMap[pj];
      var looked := if state.value == Ended then c.(callMap := c.callMap - {pj}) else c;
      if id !in c.table then looked
      else
        var updated := WithCall(looked, id, WithState(c.table[id].call, state.value, now));
        if state.value == Ended then AfterStop(updated, id) else updated
  }

  function Apply(c: Calls, m: Command): Calls {
    match m
    case NewCall(id, pj, now) =>
      c.(table := c.table[id := Tracked(Call(Ringing, false, 0, None, pj, now), None)], callMap := c.callMap[pj := id])
    case OnCallState(pj, invState, now) => AfterCallState(c, pj, invState, now)
    case OnCallMedia(pj, active, now) =>
      if pj !in c.callMap || c.callMap[pj] !in c.table then c
      else WithCall(c, c.callMap[pj], WithMedia(c.table[c.callMap[pj]].call, active, now))
    case CallHold(id, hold, now) => if id !in c.table then c else WithCall(c, id, WithHold(c.table[id].call, hold, now))
    case StartRecording(id, path, a) => AfterStart(c, id, path, a)
    case StopRecording(id) => AfterStop(c, id)
  }

  class Engine {
    var table: map<nat, Tracked>
    var callMap: map<int, nat>
    var events: seq<Event>
    const shim: Recording

    ghost predicate Valid() {
      this !in shim.Parts() && shim.Valid()
    }

    ghost function Now(): Calls
      requires Valid()
      reads this, shim.Parts()
    {
      Calls(table, callMap, shim.Now(), events)
    }

    constructor (maxCalls: nat)
      ensures Valid() && Now() == Idle(maxCalls)
    {
      table, callMap, events := map[], map[], [];
      shim := new Recording(maxCalls);
    }

    method StartRecordingForCall(id: nat, path: string, a: Attempt) returns (code: ErrorCode)
      requires Valid() && FreshRecorder(a, shim.recorders)
      modifies this, shim.Parts()
      ensures Now() == AfterStart(old(Now()), id, path, a) && code == StartCode(old(Now()), id, path, a)
    {
      if id !in table {
        return NotFound;
      }
      var pj, state := table[id].call.pjsipCallId, table[id].call.state;
      if state == Ended {
        return NotFound;
      }
      if state != InCall {
        return MediaNotReady;
      }
      if '\0' in path {
        return InvalidUtf8;
      }
      var already := shim.CallIsRecording(pj);
      if already {
        return InternalError;
      }
      var rc := shim.StartRecording(pj, path, a);
      if rc != 0 {
        events := events + [RecordingError(id, pj)];
        return InternalError;
      }
      table := table[id := table[id].(recordingPath := Some(path))];
      events := events + [RecordingStarted(id, pj)];
      code := Ok;
    }

    method StopRecordingForCall(id: nat) returns (code: ErrorCode)
      requires Valid()
      modifies this`events, shim.Parts()
      ensures Now() == AfterStop(old(Now()), id) && code == if Stops(old(Now()), id) then Ok else NotFound
    {
      if id !in table {
        return NotFound;
      }
      var pj := table[id].call.pjsipCallId;
      if table[id].recordingPath.None? {
        return NotFound;
      }
      var wasRecording := shim.CallIsRecording(pj);
      if !wasRecording {
        return NotFound;
      }
      var rc := shim.StopRecording(pj);
      events := events + [RecordingStopped(id, pj)];
      events := events + [RecordingSaved(id, pj)];
      code := Ok;
    }

    method CallStateCallback(pj: int, invState: int, now: nat)
      requires Valid()
      modifies this, shim.Parts()
      ensures Now() == AfterCallState(old(Now()), pj, invState, now)
    {
      var state := CallStateOf(invState);
      if state.None? || pj !in callMap {
        return;
      }
      var id := callMap[pj];
      if state.value == Ended {
        callMap := callMap - {pj};
      }
      if id in table {
        table := table[id := table[id].(call := WithState(table[id].call, state.value, now))];
      }
      if state.value == Ended {
        if id in table && table[id].recordingPath.Some? {
          var _ := StopRecordingForCall(id);
        }
      }
    }
  }

  // ----- when a recording starts -----

  /** What a request to record is answered: there is no such call, or it has ended; it rings or is on hold; its path is
      no C string; its slot records already, or the shim could not start; or the recording has started. */
  lemma StartAnswers(c: Calls, id: nat, path: string, a: Attempt)
    ensures var code := StartCode(c, id, path, a);
            && (code == NotFound <==> id !in c.table || c.table[id].call.state == Ended)
            && (code == MediaNotReady <==> id in c.table && c.table[id].call.state in {Ringing, OnHold})
            && (code == InvalidUtf8 <==> id in c.table && c.table[id].call.state == InCall && '\0' in path)
            && (code == Ok <==> && id in c.table && c.table[id].call.state == InCall && '\0' !in path
                                && !IsRecording(c.shim, c.table[id].call.pjsipCallId)
                                && IsRecording(Started(c.shim, c.table[id].call.pjsipCallId, path, a),
                                               c.table[id].call.pjsipCallId))
  {
  }

  /** Only a request about a call that is in call puts an event about a start behind the others: the slot records now,
      or it does not and an error is told. */
  lemma StartTells(c: Calls, m: Command, id: nat, slot: int)
    ensures Apply(c, m).events == c.events + [RecordingStarted(id, slot)] <==>
              && m.StartRecording? && m.id == id && StartCode(c, id, m.path, m.attempt) == Ok
              && slot == c.table[id].call.pjsipCallId
    ensures Apply(c, m).events == c.events + [RecordingError(id, slot)] <==>
              && m.StartRecording? && m.id == id && id in c.table && c.table[id].call.state == InCall && '\0' !in m.path
              && slot == c.table[id].call.pjsipCallId
              && !IsRecording(c.shim, slot) && !IsRecording(Apply(c, m).shim, slot)
  {
    hide WithState, WithMedia, WithHold, CallStateOf;
    var n := |c.events|;
    forall e: Event ensures (c.events + [e])[n] == e && |c.events + [e]| == n + 1 && c.events + [e] != c.events {
    }
    if m.StartRecording? {
      StartAnswers(c, m.id, m.path, m.attempt);
    } else {
      OtherEvents(c, m);
    }
  }

  lemma OtherEvents(c: Calls, m: Command)
    requires !m.StartRecording?
    ensures |Apply(c, m).events| != |c.events| + 1
  {
    hide WithState, WithMedia, WithHold, CallStateOf;
  }

  /** A recording is told to have stopped and been saved if and only if the call that started it is asked to stop or is
      disconnected while its slot records; the slot is free from then on. */
  lemma StopTells(c: Calls, m: Command, id: nat, slot: int)
    ensures Apply(c, m).events == c.events + [RecordingStopped(id, slot), RecordingSaved(id, slot)] <==>
              && (m == StopRecording(id)
                  || (m.OnCallState? && m.invState == 6 && m.pj in c.callMap && c.callMap[m.pj] == id))
              && id in c.table && c.table[id].recordingPath.Some? && slot == c.table[id].call.pjsipCallId
              && IsRecording(c.shim, slot)
    ensures m == StopRecording(id) && id in c.table && c.table[id].recordingPath.Some? ==>
              !IsRecording(Apply(c, m).shim, c.table[id].call.pjsipCallId)
  {
    hide WithMedia, WithHold;
    var told := [RecordingStopped(id, slot), RecordingSaved(id, slot)];
    assert (c.events + told)[|c.events|..] == told && c.events + told != c.events;
    forall other: nat, pj: int
      ensures var there := [RecordingStopped(other, pj), RecordingSaved(other, pj)];
              c.events + there == c.events + told ==> other == id && pj == slot
    {
      var there := [RecordingStopped(other, pj), RecordingSaved(other, pj)];
      assert (c.events + there)[|c.events|] == there[0];
    }
  }

  // ----- recorders, slots and events -----

  function Weight(e: Event, slot: int): int {
    if e == RecordingStarted(e.id, slot) then 1 else if e == RecordingSaved(e.id, slot) then -1 else 0
  }

  /** How many more recordings were started than saved in the slot. */
  function Balance(events: seq<Event>, slot: int): int {
    if events == [] then 0 else Balance(events[..|events| - 1], slot) + Weight(events[|events| - 1], slot)
  }

  ghost predicate Counted(c: Calls) {
    && Exact(c.shim)
    && forall slot :: Balance(c.events, slot) == if IsRecording(c.shim, slot) then 1 else 0
  }

  predicate FreshAttempt(c: Calls, m: Command) {
    m.StartRecording? ==> FreshRecorder(m.attempt, c.shim.recorders)
  }

  lemma BalanceSnoc(events: seq<Event>, e: Event, slot: int)
    ensures Balance(events + [e], slot) == Balance(events, slot) + Weight(e, slot)
  {
    assert (events + [e])[..|events|] == events;
  }

  lemma StartCounted(c: Calls, id: nat, path: string, a: Attempt)
    requires Counted(c) && FreshRecorder(a, c.shim.recorders)
    ensures Counted(AfterStart(c, id, path, a))
  {
    hide Exact, Balance;
    var d := AfterStart(c, id, path, a);
    if d.events != c.events {
      var pj := c.table[id].call.pjsipCallId;
      StartedExact(c.shim, pj, path, a);
      forall slot
        ensures Balance(d.events, slot) == if IsRecording(d.shim, slot) then 1 else 0
      {
        BalanceSnoc(c.events, d.events[|c.events|], slot);
      }
    }
  }

  lemma StopCounted(c: Calls, id: nat)
    requires Counted(c)
    ensures Counted(AfterStop(c, id))
  {
    hide Exact, Balance;
    if Stops(c, id) {
      var d, pj := AfterStop(c, id), c.table[id].call.pjsipCallId;
      StoppedExact(c.shim, pj);
      var stopped := c.events + [RecordingStopped(id, pj)];
      assert d.events == stopped + [RecordingSaved(id, pj)];
      forall slot
        ensures Balance(d.events, slot) == if IsRecording(d.shim, slot) then 1 else 0
      {
        BalanceSnoc(c.events, RecordingStopped(id, pj), slot);
        BalanceSnoc(stopped, RecordingSaved(id, pj), slot);
      }
    }
  }

  lemma StepCounted(c: Calls, m: Command)
    requires Counted(c) && FreshAttempt(c, m)
    ensures Counted(Apply(c, m))
  {
    hide Exact, Balance;
    match m
    case OnCallState(pj, invState, now) =>
      var state := CallStateOf(invState);
      if state == Some(Ended) && pj in c.callMap && c.callMap[pj] in c.table {
        var id := c.callMap[pj];
        StopCounted(WithCall(c.(callMap := c.callMap - {pj}), id, WithState(c.table[id].call, Ended, now)), id);
      }
    case StartRecording(id, path, a) => StartCounted(c, id, path, a);
    case StopRecording(id) => StopCounted(c, id);
    case _ =>
  }

  function After(maxCalls: nat, run: seq<Command>): Calls {
    if run == [] then Idle(maxCalls) else Apply(After(maxCalls, run[..|run| - 1]), run[|run| - 1])
  }

  /** pjsua never gives a live recorder's id to another. */
  predicate AllFresh(maxCalls: nat, run: seq<Command>) {
    run == []
    || (AllFresh(maxCalls, run[..|run| - 1]) && FreshAttempt(After(maxCalls, run[..|run| - 1]), run[|run| - 1]))
  }

  lemma IdleCounted(maxCalls: nat)
    ensures Counted(Idle(maxCalls))
  {
    forall i | 0 <= i < maxCalls
      ensures AllFree(maxCalls)[i] == FREE
    {
    }
    assert Ids(AllFree(maxCalls)) == {};
  }

  /** In every run, whatever calls and holds do, pjsua's recorders are those of the recording slots, and each slot
      has started as many recordings as were saved, plus the one it is recording. */
  lemma {:induction false} EveryRunCounted(maxCalls: nat, run: seq<Command>)
    requires AllFresh(maxCalls, run)
    ensures Counted(After(maxCalls, run))
  {
    hide Counted, Apply, FreshAttempt;
    if run == [] {
      IdleCounted(maxCalls);
    } else {
      EveryRunCounted(maxCalls, run[..|run| - 1]);
      StepCounted(After(maxCalls, run[..|run| - 1]), run[|run| - 1]);
    }
  }

  // ----- an ended call leaves nothing recording -----

  /** A call id is new, and PJSIP reuses a call id only after the disconnect was reported. */
  predicate NewIds(c: Calls, m: Command) {
    m.NewCall? ==> m.id !in c.table && m.pj !in c.callMap
  }

  /** Every entry of the map leads to a call with that PJSIP id that has not ended. */
  predicate Mapped(c: Calls) {
    forall pj :: pj in c.callMap ==>
      var id := c.callMap[pj]; id in c.table && c.table[id].call.pjsipCallId == pj && c.table[id].call.state != Ended
  }

  /** Every recording slot belongs to a mapped call, one that has not ended. */
  ghost predicate RecordsLive(c: Calls) {
    forall pj :: IsRecording(c.shim, pj) ==> pj in c.callMap
  }

  /** That holds, and no disconnect can end it. */
  ghost predicate NothingLeft(c: Calls) {
    RecordsLive(c) && forall pj, now :: RecordsLive(Apply(c, OnCallState(pj, 6, now)))
  }

  /** Every recording slot belongs to a mapped call that has a path stored, and so will stop it. */
  ghost predicate Owned(c: Calls) {
    forall pj :: IsRecording(c.shim, pj) ==>
      pj in c.callMap && c.callMap[pj] in c.table && c.table[c.callMap[pj]].recordingPath.Some?
  }

  lemma StateIs(call: Call, state: CallState, now: nat)
    ensures var after := WithState(call, state, now); after.state == state && after.pjsipCallId == call.pjsipCallId
  {
  }

  /** A disconnect leaves the slot recording exactly when no path was stored for the call it ends. */
  lemma DisconnectStops(c: Calls, pj: int, now: nat)
    requires pj in c.callMap && c.callMap[pj] in c.table && c.table[c.callMap[pj]].call.pjsipCallId == pj
    requires IsRecording(c.shim, pj)
    ensures IsRecording(Apply(c, OnCallState(pj, 6, now)).shim, pj) <==> c.table[c.callMap[pj]].recordingPath.None?
  {
  }

  lemma StateOwned(c: Calls, pj: int, invState: int, now: nat)
    requires Mapped(c)
    ensures Mapped(AfterCallState(c, pj, invState, now))
    ensures Owned(c) ==> Owned(AfterCallState(c, pj, invState, now))
  {
    hide WithState;
    if CallStateOf(invState).Some? && pj in c.callMap {
      StateIs(c.table[c.callMap[pj]].call, CallStateOf(invState).value, now);
    }
  }

  lemma UpdateOwned(c: Calls, id: nat, call: Call)
    requires Mapped(c) && id in c.table && call.pjsipCallId == c.table[id].call.pjsipCallId && call.state != Ended
    ensures Mapped(WithCall(c, id, call)) && (Owned(c) ==> Owned(WithCall(c, id, call)))
  {
  }

  lemma StopOwned(c: Calls, id: nat)
    requires Mapped(c)
    ensures Mapped(AfterStop(c, id)) && (Owned(c) ==> Owned(AfterStop(c, id)))
  {
  }

  /** A recording that is started belongs to a call that is mapped, or uses the slot of one that has a path stored. */
  predicate StartsMapped(c: Calls, m: Command) {
    m.StartRecording? && StartCode(c, m.id, m.path, m.attempt) == Ok ==>
      var pj := c.table[m.id].call.pjsipCallId;
      && pj in c.callMap
      && (c.callMap[pj] == m.id || (c.callMap[pj] in c.table && c.table[c.callMap[pj]].recordingPath.Some?))
  }

  lemma StartOwned(c: Calls, id: nat, path: string, a: Attempt)
    requires Mapped(c)
    ensures Mapped(AfterStart(c, id, path, a))
    ensures Owned(c) ==> (Owned(AfterStart(c, id, path, a)) <==> StartsMapped(c, StartRecording(id, path, a)))
  {
    if Owned(c) && StartCode(c, id, path, a) == Ok {
      var pj := c.table[id].call.pjsipCallId;
      assert IsRecording(AfterStart(c, id, path, a).shim, pj);
    }
  }

  /** Whatever happens, the map leads to calls that have not ended; recording slots stay owned in every step but the
      start of a recording, and there exactly if the start is mapped. */
  lemma StepOwned(c: Calls, m: Command)
    requires Mapped(c) && NewIds(c, m)
    ensures Mapped(Apply(c, m))
    ensures Owned(c) ==> (Owned(Apply(c, m)) <==> StartsMapped(c, m))
  {
    hide WithState, AfterCallState, AfterStart, AfterStop;
    match m
    case NewCall(_, _, _) =>
    case OnCallState(pj, invState, now) => StateOwned(c, pj, invState, now);
    case OnCallMedia(pj, active, now) =>
      hide Owned;
      if pj in c.callMap {
        UpdateOwned(c, c.callMap[pj], WithMedia(c.table[c.callMap[pj]].call, active, now));
      }
    case CallHold(id, hold, now) =>
      hide Owned;
      if id in c.table {
        UpdateOwned(c, id, WithHold(c.table[id].call, hold, now));
      }
    case StartRecording(id, path, a) =>
      hide Owned;
      StartOwned(c, id, path, a);
    case StopRecording(id) =>
      hide Owned;
      StopOwned(c, id);
  }

  /** Slots are owned exactly if nothing is left recording now or by any disconnect. */
  lemma OwnedMeans(c: Calls)
    requires Mapped(c)
    ensures Owned(c) <==> NothingLeft(c)
  {
    hide Apply;
    if Owned(c) {
      forall pj, now
        ensures RecordsLive(Apply(c, OnCallState(pj, 6, now)))
      {
        StepOwned(c, OnCallState(pj, 6, now));
      }
    } else {
      var pj :| IsRecording(c.shim, pj)
        && !(pj in c.callMap && c.callMap[pj] in c.table && c.table[c.callMap[pj]].recordingPath.Some?);
      if pj in c.callMap {
        DisconnectStops(c, pj, 0);
        EndUnmaps(c, pj);
        assert !RecordsLive(Apply(c, OnCallState(pj, 6, 0)));
      }
    }
  }

  lemma EndUnmaps(c: Calls, pj: int)
    ensures pj !in Apply(c, OnCallState(pj, 6, 0)).callMap
  {
  }

  // ----- over whole runs -----

  predicate AllNewIds(maxCalls: nat, run: seq<Command>) {
    run == []
    || (AllNewIds(maxCalls, run[..|run| - 1]) && NewIds(After(maxCalls, run[..|run| - 1]), run[|run| - 1]))
  }

  /** After every command of the run nothing is left recording. */
  ghost predicate NeverLeft(maxCalls: nat, run: seq<Command>) {
    NothingLeft(After(maxCalls, run)) && (run != [] ==> NeverLeft(maxCalls, run[..|run| - 1]))
  }

  predicate AllStartsMapped(maxCalls: nat, run: seq<Command>) {
    run == []
    || (AllStartsMapped(maxCalls, run[..|run| - 1]) && StartsMapped(After(maxCalls, run[..|run| - 1]), run[|run| - 1]))
  }

  lemma IdleOwned(maxCalls: nat)
    ensures Mapped(Idle(maxCalls)) && Owned(Idle(maxCalls))
  {
  }

  lemma {:induction false} RunMapped(maxCalls: nat, run: seq<Command>)
    requires AllNewIds(maxCalls, run)
    ensures Mapped(After(maxCalls, run))
  {
    hide Apply, NewIds, Mapped;
    if run == [] {
      IdleOwned(maxCalls);
    } else {
      RunMapped(maxCalls, run[..|run| - 1]);
      StepOwned(After(maxCalls, run[..|run| - 1]), run[|run| - 1]);
    }
  }

  /** An ended call never leaves its slot recording, in a run and by any disconnect, if and only if every recording in
      the run is started for a mapped call or in the slot of one with a path stored. */
  lemma {:induction false} EndedCallsRecordNothing(maxCalls: nat, run: seq<Command>)
    requires AllNewIds(maxCalls, run)
    ensures NeverLeft(maxCalls, run) <==> AllStartsMapped(maxCalls, run)
  {
    hide Apply, NewIds, Mapped, Owned, NothingLeft, StartsMapped;
    RunMapped(maxCalls, run);
    OwnedMeans(After(maxCalls, run));
    if run == [] {
      IdleOwned(maxCalls);
    } else {
      var before, last := After(maxCalls, run[..|run| - 1]), run[|run| - 1];
      RunMapped(maxCalls, run[..|run| - 1]);
      EndedCallsRecordNothing(maxCalls, run[..|run| - 1]);
      OwnedMeans(before);
      NeverLeftNow(maxCalls, run[..|run| - 1]);
      StepOwned(before, last);
    }
  }

  lemma NeverLeftNow(maxCalls: nat, run: seq<Command>)
    ensures NeverLeft(maxCalls, run) ==> NothingLeft(After(maxCalls, run))
  {
  }

  // ----- while no ended call is held -----

  predicate NoEndedHeld(c: Calls, m: Command) {
    m.CallHold? && m.id in c.table ==> c.table[m.id].call.state != Ended
  }

  /** A call that has not ended is the one its PJSIP id is mapped to. */
  predicate LiveMapped(c: Calls) {
    forall id :: id in c.table && c.table[id].call.state != Ended ==>
      var pj := c.table[id].call.pjsipCallId; pj in c.callMap && c.callMap[pj] == id
  }

  lemma StepLiveMapped(c: Calls, m: Command)
    requires Mapped(c) && LiveMapped(c) && NewIds(c, m) && NoEndedHeld(c, m)
    ensures LiveMapped(Apply(c, m)) && StartsMapped(c, m)
  {
    hide WithState;
    if m.OnCallState? && CallStateOf(m.invState).Some? && m.pj in c.callMap {
      StateIs(c.table[c.callMap[m.pj]].call, CallStateOf(m.invState).value, m.now);
    }
  }

  predicate AllNoEndedHeld(maxCalls: nat, run: seq<Command>) {
    run == []
    || (AllNoEndedHeld(maxCalls, run[..|run| - 1]) && NoEndedHeld(After(maxCalls, run[..|run| - 1]), run[|run| - 1]))
  }

  /** While no ended call is held, every start is mapped, and so no ended call leaves its slot recording. */
  lemma {:induction false} UnheldStartsMapped(maxCalls: nat, run: seq<Command>)
    requires AllNewIds(maxCalls, run) && AllNoEndedHeld(maxCalls, run)
    ensures LiveMapped(After(maxCalls, run)) && AllStartsMapped(maxCalls, run)
  {
    hide Apply, NewIds, NoEndedHeld, StartsMapped, Mapped;
    if run != [] {
      UnheldStartsMapped(maxCalls, run[..|run| - 1]);
      RunMapped(maxCalls, run[..|run| - 1]);
      StepLiveMapped(After(maxCalls, run[..|run| - 1]), run[|run| - 1]);
    }
  }

  /** Resuming an ended call revives it; a recording started through it on a reused PJSIP id outlives the call that
      uses the id. */
  lemma RevivedCallLeavesRecording(c: Calls, ended: nat, next: nat, path: string, a: Attempt, now: nat)
    requires ended in c.table && next !in c.table && path != "" && '\0' !in path && a.Connected?
    requires c.table[ended].call.state == Ended && 0 <= c.table[ended].call.pjsipCallId < |c.shim.slots|
    requires !IsRecording(c.shim, c.table[ended].call.pjsipCallId)
    ensures var pj := c.table[ended].call.pjsipCallId;
            var called := Apply(c, NewCall(next, pj, now));
            var recorded := Apply(Apply(called, CallHold(ended, false, now)), StartRecording(ended, path, a));
            var end := Apply(recorded, OnCallState(pj, 6, now));
            IsRecording(end.shim, pj) && pj !in end.callMap && end.table[next].call.state == Ended
  {
    hide WithState;
    var pj := c.table[ended].call.pjsipCallId;
    var called := Apply(c, NewCall(next, pj, now));
    var resumed := Apply(called, CallHold(ended, false, now));
    assert resumed.table[next] == Tracked(Call(Ringing, false, 0, None, pj, now), None);
    var recorded := Apply(resumed, StartRecording(ended, path, a));
    assert recorded.table[next] == resumed.table[next] && recorded.callMap == resumed.callMap;
    StateIs(recorded.table[next].call, Ended, now);
  }
}
