/** When the bytes that the socket still has to send are overwritten in the session's buffer. */
module TelnetInFlight {
  import opened Bytes
  import opened TelnetOutput
  import opened TelnetConservation

  /** The block would be written over a byte that is in flight and differs from it. */
  predicate Overwrites(o: Out, s: seq<byte>)
    requires o.Valid()
  {
    && o.flight.Buffer?
    && exists i :: o.flight.from <= i < o.flight.to && o.len <= i < o.len + Room(o.len, |s|) && s[i - o.len] != o.buf[i]
  }

  lemma WriteAt(buf: seq<byte>, at: nat, s: seq<byte>, i: nat)
    requires at + |s| <= |buf| && i < |buf|
    ensures Write(buf, at, s)[i] == if at <= i < at + |s| then s[i - at] else buf[i]
  {
  }

  lemma AppendedBytes(o: Out, s: seq<byte>, i: nat)
    requires o.Valid() && s != [] && i < CUT_END
    requires i >= CLI_TELNET_BUF_SIZE ==> o.buf[CLI_TELNET_BUF_SIZE..CUT_END] == CUT_MSG
    ensures Appended(o, s).buf[i] == if o.len <= i < o.len + Room(o.len, |s|) then s[i - o.len] else o.buf[i]
  {
    hide Out.InFlight, Write;
    var clen := Room(o.len, |s|);
    var moved := Write(o.buf, o.len, s[..clen]);
    WriteAt(o.buf, o.len, s[..clen], i);
    WriteAt(moved, CLI_TELNET_BUF_SIZE, CUT_MSG + [0], i);
    if i >= CLI_TELNET_BUF_SIZE {
      assert o.buf[i] == o.buf[CLI_TELNET_BUF_SIZE..CUT_END][i - CLI_TELNET_BUF_SIZE];
    }
  }

  lemma SliceSame(a: seq<byte>, b: seq<byte>, from: nat, to: nat)
    requires from <= to <= |a| && to <= |b|
    ensures a[from..to] == b[from..to] <==> forall i :: from <= i < to ==> a[i] == b[i]
  {
    if a[from..to] == b[from..to] {
      forall i | from <= i < to
        ensures a[i] == b[i]
      {
        assert a[i] == a[from..to][i - from];
      }
    }
  }

  /** What is in flight stays as it was exactly if nothing is written over it. */
  lemma AppendedInFlight(o: Out, s: seq<byte>)
    requires o.Valid() && s != []
    ensures Appended(o, s).InFlight() == o.InFlight() <==> !Overwrites(o, s)
  {
    hide Appended, Room, Out.Valid, Out.Backlog;
    AppendedBacklog(o, s);
    if o.flight.Buffer? {
      var from, to := o.flight.from, o.flight.to;
      var b := Appended(o, s).buf;
      FlightFits(o);
      FlightFits(Appended(o, s));
      forall i | from <= i < to
        ensures i < CUT_END && b[i] == if o.len <= i < o.len + Room(o.len, |s|) then s[i - o.len] else o.buf[i]
      {
        InFlightAt(o, i);
        AppendedBytes(o, s, i);
      }
      SliceSame(b, o.buf, from, to);
    }
  }

  lemma FlightFits(o: Out)
    requires o.Valid() && o.flight.Buffer?
    ensures o.flight.from <= o.flight.to <= CUT_END < |o.buf|
  {
  }

  function Stream(o: Out): seq<byte>
    requires o.Valid()
  {
    o.wire + o.InFlight()
  }

  /** The two sessions send different bytes at k, and nothing can change that any more. */
  predicate DifferAt(o: Out, c: Copying, k: nat)
    requires o.Valid() && InStep(o, c)
  {
    && k < |Stream(o)| && Stream(o)[k] != (c.wire + c.pending)[k]
    && (k < |o.wire| || (o.flight.Buffer? && o.flight.from + k - |o.wire| < o.len))
  }

  lemma OverwriteDiffers(o: Out, c: Copying, s: seq<byte>, r: SocketResult) returns (k: nat)
    requires o.Valid() && Same(o, c) && s != [] && Overwrites(o, s)
    ensures InStep(Send(o, s, false, r), CopySend(c, s, r)) && DifferAt(Send(o, s, false, r), CopySend(c, s, r), k)
  {
    hide Appended, Keep, Room, Out.InFlight, Out.Backlog;
    InStepSubmit(o, c, s, false, r);
    AppendedBacklog(o, s);
    var i :| o.flight.from <= i < o.flight.to && o.len <= i < o.len + Room(o.len, |s|) && s[i - o.len] != o.buf[i];
    var a := Appended(o, s);
    InFlightAt(o, i);
    InFlightAt(a, i);
    AppendedBytes(o, s, i);
    AppendedLength(o, s);
    k := |o.wire| + i - o.flight.from;
    assert Stream(a)[k] == a.InFlight()[i - o.flight.from] == s[i - o.len];
    assert (c.wire + c.pending)[k] == o.InFlight()[i - o.flight.from] == o.buf[i];
  }

  lemma AppendedLength(o: Out, s: seq<byte>)
    requires o.Valid() && s != []
    ensures Appended(o, s).len >= o.len + Room(o.len, |s|)
  {
  }

  lemma InFlightAt(o: Out, i: nat)
    requires o.Valid() && o.flight.Buffer? && o.flight.from <= i < o.flight.to
    ensures i < CUT_END && |o.InFlight()| == o.flight.to - o.flight.from
    ensures o.InFlight()[i - o.flight.from] == o.buf[i]
    ensures i >= CLI_TELNET_BUF_SIZE ==> o.buf[CLI_TELNET_BUF_SIZE..CUT_END] == CUT_MSG
  {
  }

  lemma DifferSubmit(o: Out, c: Copying, s: seq<byte>, own: bool, r: SocketResult, k: nat)
    requires o.Valid() && InStep(o, c) && DifferAt(o, c, k) && (own ==> Owns(o, s))
    ensures InStep(Send(o, s, own, r), CopySend(c, s, r)) && DifferAt(Send(o, s, own, r), CopySend(c, s, r), k)
  {
    hide Appended, Keep, Room;
    InStepSubmit(o, c, s, own, r);
    if s != [] {
      AppendedBacklog(o, s);
      AppendedLength(o, s);
      if k >= |o.wire| {
        var i := o.flight.from + k - |o.wire|;
        InFlightAt(o, i);
        AppendedBytes(o, s, i);
        InFlightAt(Appended(o, s), i);
      }
    }
  }

  lemma DifferComplete(o: Out, c: Copying, k: nat)
    requires o.Valid() && InStep(o, c) && DifferAt(o, c, k)
    ensures var d := c.(wire := c.wire + c.pending, pending := [], busy := false);
            InStep(Complete(o), d) && DifferAt(Complete(o), d, k)
  {
    InStepComplete(o, c);
  }

  lemma DifferFlush(o: Out, c: Copying, r: SocketResult, k: nat)
    requires o.Valid() && InStep(o, c) && DifferAt(o, c, k)
    ensures InStep(Flush(o, r), CopyFlush(c, r)) && DifferAt(Flush(o, r), CopyFlush(c, r), k)
  {
    hide Send, CopySend, Complete;
    DifferComplete(o, c, k);
    CompleteIs(o);
    var p, d := Complete(o), c.(wire := c.wire + c.pending, pending := [], busy := false);
    if p.len > 0 {
      DifferSubmit(p.(len := 0), d.(backlog := []), p.Backlog(), true, r, k);
    }
  }

  lemma SendingStream(o: Out, n: nat)
    requires o.Valid()
    ensures var o', m := Next(o, Sending(n)), AtMost(n, |o.InFlight()|);
            && Stream(o') == Stream(o) && |o'.wire| == |o.wire| + m && o'.len == o.len
            && (o.flight.Buffer? <==> o'.flight.Buffer?)
            && (o.flight.Buffer? ==> o'.flight.from == o.flight.from + m)
  {
    var m := AtMost(n, |o.InFlight()|);
    assert o.InFlight() == o.InFlight()[..m] + o.InFlight()[m..];
    Assoc(o.wire, o.InFlight()[..m], o.InFlight()[m..]);
  }

  lemma CopySendingStream(c: Copying, n: nat)
    ensures var c' := CopyNext(c, Sending(n)); c'.wire + c'.pending == c.wire + c.pending
  {
    var m := AtMost(n, |c.pending|);
    assert c.pending == c.pending[..m] + c.pending[m..];
    Assoc(c.wire, c.pending[..m], c.pending[m..]);
  }

  lemma DifferSending(o: Out, c: Copying, n: nat, k: nat)
    requires o.Valid() && InStep(o, c) && DifferAt(o, c, k)
    ensures var o', c' := Next(o, Sending(n)), CopyNext(c, Sending(n)); InStep(o', c') && DifferAt(o', c', k)
  {
    hide Stream, Next, CopyNext, InStep, AtMost, Out.InFlight, Out.Valid, Out.Backlog;
    InStepSending(o, c, n);
    SendingStream(o, n);
    CopySendingStream(c, n);
  }

  lemma DifferNext(o: Out, c: Copying, e: Event, k: nat)
    requires o.Valid() && InStep(o, c) && DifferAt(o, c, k)
    ensures InStep(Next(o, e), CopyNext(c, e)) && DifferAt(Next(o, e), CopyNext(c, e), k)
  {
    hide Send, CopySend, Flush, CopyFlush, Transmit, InStep, DifferAt;
    match e
    case Submit(s, r) => DifferSubmit(o, c, s, false, r, k);
    case Sending(n) => DifferSending(o, c, n, k);
    case DataSent(r) => DifferFlush(o, c, r, k);
  }

  lemma SameNext(o: Out, c: Copying, e: Event)
    requires o.Valid() && Same(o, c) && (e.Submit? && e.bytes != [] ==> !Overwrites(o, e.bytes))
    ensures Same(Next(o, e), CopyNext(c, e))
  {
    hide Appended, Keep, Overwrites;
    InStepNext(o, c, e);
    if e.Submit? && e.bytes != [] && o.flight.Buffer? {
      AppendedInFlight(o, e.bytes);
      AppendedBacklog(o, e.bytes);
    }
  }

  // ----- whole sessions -----

  /** No block was written over other bytes in flight. */
  ghost predicate Intact(events: seq<Event>)
    decreases |events|
  {
    events != [] ==>
      var init, last := events[..|events| - 1], events[|events| - 1];
      Intact(init) && (last.Submit? && last.bytes != [] ==> !Overwrites(After(init), last.bytes))
  }

  /** Nothing was submitted between a flush that had to wait and its completion. */
  predicate Quiet(events: seq<Event>)
    decreases |events|
  {
    events != [] ==>
      var init, last := events[..|events| - 1], events[|events| - 1];
      Quiet(init) && (last.Submit? && last.bytes != [] ==> !After(init).flight.Buffer?)
  }

  lemma {:induction false} QuietIntact(events: seq<Event>)
    requires Quiet(events)
    ensures Intact(events)
    decreases |events|
  {
    hide After;
    if events != [] {
      QuietIntact(events[..|events| - 1]);
    }
  }

  lemma {:induction false} SessionsInStep(events: seq<Event>) returns (k: nat)
    ensures var o, c := After(events), Copied(events);
            InStep(o, c) && if Intact(events) then Same(o, c) else DifferAt(o, c, k)
    decreases |events|
  {
    hide Next, CopyNext, Overwrites, InStep, DifferAt, Same;
    if events == [] {
      FreshSame();
      k := 0;
    } else {
      var init, last := events[..|events| - 1], events[|events| - 1];
      k := SessionsInStep(init);
      var o, c := After(init), Copied(init);
      InStepNext(o, c, last);
      if Intact(events) {
        SameNext(o, c, last);
      } else if Intact(init) {
        NextSubmit(o, c, last);
        k := OverwriteDiffers(o, c, last.bytes, last.r);
      } else {
        DifferNext(o, c, last, k);
      }
    }
  }

  lemma NextSubmit(o: Out, c: Copying, e: Event)
    requires o.Valid() && e.Submit?
    ensures Next(o, e) == Send(o, e.bytes, false, e.r) && CopyNext(c, e) == CopySend(c, e.bytes, e.r)
  {
  }

  lemma FreshSame()
    ensures Same(Fresh(), Copying([], [], false, []))
  {
  }

  /** The bytes sent and in flight are those of a socket that copies what it is given exactly if no block was ever
      written over other bytes in flight; what waits is the same in any case. */
  lemma IntactExactly(events: seq<Event>)
    ensures var o, c := After(events), Copied(events);
            && o.Backlog() == c.backlog
            && (Stream(o) == c.wire + c.pending <==> Intact(events))
  {
    hide After, Copied, Intact;
    var k := SessionsInStep(events);
  }

  /** As long as no flush is cut short and nothing is written over other bytes in flight: what was sent and is in
      flight, followed by what waits, is the submitted bytes in order, except that what comes behind a backlog of
      exactly 256 bytes gives way to one marker, and the end of a block that the socket took only in part is dropped;
      and what waits is at most 256 bytes, or exactly 256 bytes and a marker. */
  lemma Conservation(events: seq<Event>) returns (log: seq<Stretch>)
    requires GoesOn(events) && Intact(events)
    ensures var o := After(events);
            && Explains(log, Submitted(events), Stream(o), o.Backlog())
            && (o.len <= CLI_TELNET_BUF_SIZE || (o.len == CUT_END && o.Backlog()[CLI_TELNET_BUF_SIZE..] == CUT_MSG))
    ensures (forall e :: e in events ==> !TakesPart(e)) ==> NothingDropped(log)
  {
    hide After, Copied, Intact, Explains, Submitted, GoesOn;
    log := CopyConservation(events);
    IntactExactly(events);
    BacklogEnds(After(events));
  }

  lemma BacklogEnds(o: Out)
    requires o.Valid()
    ensures o.len <= CLI_TELNET_BUF_SIZE || (o.len == CUT_END && o.Backlog()[CLI_TELNET_BUF_SIZE..] == CUT_MSG)
  {
    assert o.len == CUT_END ==> o.buf[..o.len][CLI_TELNET_BUF_SIZE..] == o.buf[CLI_TELNET_BUF_SIZE..o.len];
  }

  /** A block submitted while a flush waits takes the place of what it should follow. */
  lemma FlightOverwritten(o: Out, s: seq<byte>, r: SocketResult)
    requires o.Valid() && o.len > 0 && s != [] && s[0] != o.buf[0]
    ensures var flushed := Flush(o, Pending);
            var end := Send(flushed, s, false, r);
            && flushed.InFlight() == o.Backlog()
            && Overwrites(flushed, s) && end.InFlight()[0] == s[0] != o.Backlog()[0] && end.Backlog()[0] == s[0]
  {
    hide Appended;
    var flushed := Flush(o, Pending);
    AppendedInFlight(flushed, s);
    AppendedBacklog(flushed, s);
    AppendedBytes(flushed, s, 0);
    InFlightAt(Appended(flushed, s), 0);
    assert Room(0, |s|) > 0;
    assert flushed.flight.from <= 0 < flushed.flight.to && s[0 - flushed.len] != flushed.buf[0];
  }
}
