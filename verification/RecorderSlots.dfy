/** The shim's recording slots: one per PJSIP call id, in four global arrays.

    Connections in the conference bridge are not kept here. */
module RecorderSlots {

  const INVALID_ID := -1
  const PATH_SIZE: nat := 512

  datatype Slot = Slot(recording: bool, path: string, recorder: int, port: int)

  const FREE := Slot(false, "", INVALID_ID, INVALID_ID)

  /** recorders are those that pjsua has created and not destroyed. */
  datatype Shim = Shim(slots: seq<Slot>, recorders: set<int>)

  /** How far pjsua lets a recording get; rec is the id of the recorder it created. */
  datatype Attempt =
    | NoCall | NoCallPort | NotCreated | NoRecorderPort(rec: int) | NotConnected(rec: int) | NoMicrophone(rec: int)
    | Connected(rec: int, port: int)

  predicate FreshRecorder(a: Attempt, recorders: set<int>) {
    a.NoCall? || a.NoCallPort? || a.NotCreated? || (a.rec >= 0 && a.rec !in recorders)
  }

  /** What fits into g_rec_path with its NUL. */
  function Stored(path: string): string {
    if |path| < PATH_SIZE then path else path[..PATH_SIZE - 1]
  }

  predicate IsRecording(s: Shim, id: int) {
    0 <= id < |s.slots| && s.slots[id].recording
  }

  predicate Starts(s: Shim, id: int, path: string, a: Attempt) {
    0 <= id < |s.slots| && path != "" && !s.slots[id].recording && a.Connected?
  }

  function Started(s: Shim, id: int, path: string, a: Attempt): Shim {
    if !Starts(s, id, path, a) then s
    else Shim(s.slots[id := Slot(true, Stored(path), a.rec, a.port)], s.recorders + {a.rec})
  }

  function Stopped(s: Shim, id: int): Shim {
    if !IsRecording(s, id) then s else Shim(s.slots[id := FREE], s.recorders - Held(s.slots[id]))
  }

  function Held(slot: Slot): set<int> {
    if slot.recorder == INVALID_ID then {} else {slot.recorder}
  }

  function Ids(slots: seq<Slot>): set<int> {
    set i | 0 <= i < |slots| && slots[i].recorder != INVALID_ID :: slots[i].recorder
  }

  function AllFree(n: nat): (slots: seq<Slot>)
    ensures |slots| == n
  {
    seq(n, _ => FREE)
  }

  class Recording {
    const isRecording: array<bool>
    const recPath: array<string>
    const recorderId: array<int>
    const recorderSlot: array<int>
    var recorders: set<int>

    ghost function Parts(): set<object> {
      {this, isRecording, recPath, recorderId, recorderSlot}
    }

    ghost predicate Valid() {
      && recPath.Length == recorderId.Length == recorderSlot.Length == isRecording.Length
      && recorderId != recorderSlot
    }

    ghost function At(i: int): Slot
      requires Valid() && 0 <= i < isRecording.Length
      reads Parts()
    {
      Slot(isRecording[i], recPath[i], recorderId[i], recorderSlot[i])
    }

    ghost function Now(): (s: Shim)
      requires Valid()
      reads Parts()
      ensures |s.slots| == isRecording.Length
    {
      Shim(seq(isRecording.Length, i requires 0 <= i < isRecording.Length reads Parts() => At(i)), recorders)
    }

    constructor (maxCalls: nat)
      ensures Valid() && fresh(Parts()) && isRecording.Length == maxCalls
      ensures Now() == Shim(AllFree(maxCalls), {})
    {
      isRecording := new bool[maxCalls];
      recPath := new string[maxCalls];
      recorderId := new int[maxCalls];
      recorderSlot := new int[maxCalls];
      recorders := {};
      new;
      Reset();
      assert Now().slots == AllFree(maxCalls);
    }

    method Reset()
      requires Valid()
      modifies isRecording, recPath, recorderId, recorderSlot
      ensures Now() == Shim(AllFree(isRecording.Length), old(recorders))
    {
      for i := 0 to isRecording.Length
        invariant forall k :: 0 <= k < i ==>
                    !isRecording[k] && recPath[k] == "" && recorderId[k] == recorderSlot[k] == INVALID_ID
      {
        isRecording[i] := false;
        recPath[i] := "";
        recorderId[i] := INVALID_ID;
        recorderSlot[i] := INVALID_ID;
      }
      assert Now().slots == AllFree(isRecording.Length);
    }

    /** path is a C string; it holds no NUL. */
    method StartRecording(id: int, path: string, a: Attempt) returns (rc: int)
      requires Valid() && FreshRecorder(a, recorders)
      modifies Parts()
      ensures Now() == Started(old(Now()), id, path, a)
      ensures rc == if Starts(old(Now()), id, path, a) then 0 else -1
    {
      if id < 0 || id >= isRecording.Length || path == "" {
        return -1;
      }
      if isRecording[id] {
        return -1;
      }
      if a.NoCall? || a.NoCallPort? || a.NotCreated? {
        return -1;
      }
      recorders := recorders + {a.rec};
      if !a.Connected? {
        recorders := recorders - {a.rec};
        return -1;
      }
      ghost var before := old(Now()).slots;
      recPath[id] := Stored(path);
      isRecording[id] := true;
      recorderId[id] := a.rec;
      recorderSlot[id] := a.port;
      assert Now().slots == before[id := Slot(true, Stored(path), a.rec, a.port)];
      rc := 0;
    }

    method StopRecording(id: int) returns (rc: int)
      requires Valid()
      modifies Parts()
      ensures Now() == Stopped(old(Now()), id)
      ensures rc == if IsRecording(old(Now()), id) then 0 else -1
    {
      if id < 0 || id >= isRecording.Length {
        return -1;
      }
      if !isRecording[id] {
        return -1;
      }
      if recorderId[id] != INVALID_ID {
        recorders := recorders - {recorderId[id]};
      }
      ghost var before := old(Now()).slots;
      isRecording[id] := false;
      recPath[id] := "";
      recorderId[id] := INVALID_ID;
      recorderSlot[id] := INVALID_ID;
      assert Now().slots == before[id := FREE];
      rc := 0;
    }

    method CallIsRecording(id: int) returns (r: bool)
      requires Valid()
      ensures r == IsRecording(Now(), id)
    {
      if id < 0 || id >= isRecording.Length {
        return false;
      }
      r := isRecording[id];
    }

    /** The recorders' part of pd_shutdown. */
    method Shutdown()
      requires Valid()
      modifies Parts()
      ensures Now() == Shim(AllFree(isRecording.Length), old(recorders) - Ids(old(Now()).slots))
    {
      ghost var slots := Now().slots;
      for i := 0 to isRecording.Length
        invariant Now().slots == slots
        invariant recorders == old(recorders) - Ids(slots[..i])
      {
        assert slots[i].recorder == recorderId[i];
        IdsSnoc(slots, i);
        if recorderId[i] != INVALID_ID {
          recorders := recorders - {recorderId[i]};
        }
        assert Now().slots == slots;
      }
      assert slots[..isRecording.Length] == slots;
      Reset();
    }
  }

  lemma IdsSnoc(slots: seq<Slot>, i: nat)
    requires i < |slots|
    ensures Ids(slots[..i + 1]) == Ids(slots[..i]) + Held(slots[i])
  {
    var a, b := slots[..i], slots[..i + 1];
    forall r | r in Ids(b)
      ensures r in Ids(a) || r == slots[i].recorder
    {
      var k :| 0 <= k < |b| && b[k].recorder != INVALID_ID && b[k].recorder == r;
      assert k < i ==> a[k] == b[k];
    }
    forall r | r in Ids(a)
      ensures r in Ids(b)
    {
      var k :| 0 <= k < |a| && a[k].recorder != INVALID_ID && a[k].recorder == r;
      assert b[k] == a[k];
    }
    assert b[i] == slots[i];
  }

  // ----- the recorders and the slots -----

  /** pjsua's recorders are exactly those of the recording slots, each in one slot; every other slot is free. */
  predicate Exact(s: Shim) {
    && (forall i :: 0 <= i < |s.slots| ==>
          if s.slots[i].recording then s.slots[i].recorder >= 0 else s.slots[i] == FREE)
    && (forall i, j :: 0 <= i < j < |s.slots| && s.slots[i].recording && s.slots[j].recording ==>
          s.slots[i].recorder != s.slots[j].recorder)
    && s.recorders == Ids(s.slots)
  }

  lemma StartedExact(s: Shim, id: int, path: string, a: Attempt)
    requires Exact(s) && FreshRecorder(a, s.recorders)
    ensures Exact(Started(s, id, path, a))
  {
    if Starts(s, id, path, a) {
      var t := Started(s, id, path, a);
      forall i | 0 <= i < |s.slots| && s.slots[i].recording
        ensures s.slots[i].recorder in s.recorders
      {
        assert s.slots[i].recorder in Ids(s.slots);
      }
      IdsUpdate(s.slots, id, t.slots[id]);
    }
  }

  lemma IdsUpdate(slots: seq<Slot>, id: nat, slot: Slot)
    requires id < |slots| && slots[id].recorder == INVALID_ID
    ensures Ids(slots[id := slot]) == Ids(slots) + Held(slot)
  {
    var t := slots[id := slot];
    forall r | r in Ids(t)
      ensures r in Ids(slots) || r == slot.recorder
    {
      var k :| 0 <= k < |t| && t[k].recorder != INVALID_ID && t[k].recorder == r;
      assert k != id ==> slots[k] == t[k];
    }
    forall r | r in Ids(slots)
      ensures r in Ids(t)
    {
      var k :| 0 <= k < |slots| && slots[k].recorder != INVALID_ID && slots[k].recorder == r;
      assert t[k] == slots[k];
    }
    assert t[id] == slot;
  }

  lemma StoppedExact(s: Shim, id: int)
    requires Exact(s)
    ensures Exact(Stopped(s, id))
  {
    if IsRecording(s, id) {
      var t := Stopped(s, id);
      IdsUpdate(t.slots, id, s.slots[id]);
      assert t.slots[id := s.slots[id]] == s.slots;
      forall k | 0 <= k < |t.slots|
        ensures t.slots[k].recorder != s.slots[id].recorder
      {
        if k != id {
          assert t.slots[k] == s.slots[k];
        }
      }
      assert s.slots[id].recorder !in Ids(t.slots);
    }
  }

  /** Shutting down destroys every recorder. */
  lemma ShutdownExact(s: Shim)
    requires Exact(s)
    ensures var t := Shim(AllFree(|s.slots|), s.recorders - Ids(s.slots)); Exact(t) && t.recorders == {}
  {
  }

  /** A start that succeeds: the slot has the path, or its first 511 characters, the new recorder and its port; it was
      free, and no other slot changes. */
  lemma StartLeaves(s: Shim, id: int, path: string, a: Attempt)
    requires 0 <= id < |s.slots|
    ensures var t := Started(s, id, path, a);
            if path == "" || s.slots[id].recording || !a.Connected? then t == s
            else t == Shim(s.slots[id := Slot(true, if |path| < 512 then path else path[..511], a.rec, a.port)],
                           s.recorders + {a.rec})
  {
  }

  /** A stop clears the slot: no path, and neither a recorder nor a port. */
  lemma StopLeaves(s: Shim, id: int)
    requires 0 <= id < |s.slots| && s.slots[id].recording
    ensures Stopped(s, id).slots == s.slots[id := Slot(false, "", -1, -1)]
  {
  }
}
