/** Where every byte submitted to a telnet session ends up, and when bytes in flight are overwritten. */
module TelnetConservation {
  import opened Bytes
  import opened TelnetOutput

  datatype Event =
    | Submit(bytes: seq<byte>, r: SocketResult)
    | Sending(count: nat)
    | DataSent(r: SocketResult)

  function AtMost(n: nat, limit: nat): nat {
    if n <= limit then n else limit
  }

  function Next(o: Out, e: Event): (o': Out)
    requires o.Valid()
    ensures o'.Valid()
  {
    match e
    case Submit(s, r) => Send(o, s, false, r)
    case Sending(n) => Transmit(o, AtMost(n, |o.InFlight()|))
    case DataSent(r) => Flush(o, r)
  }

  function Fresh(): (o: Out)
    ensures o.Valid()
  {
    Out([], seq(CLI_TELNET_BUF_SIZE + MAX_CUT_MSG_LEN, _ => 0), 0, Idle)
  }

  function After(events: seq<Event>): (o: Out)
    ensures o.Valid()
    decreases |events|
  {
    if events == [] then Fresh() else Next(After(events[..|events| - 1]), events[|events| - 1])
  }

  function Submitted(events: seq<Event>): seq<byte>
    decreases |events|
  {
    if events == [] then [] else
      Submitted(events[..|events| - 1]) +
      (if events[|events| - 1].Submit? then events[|events| - 1].bytes else [])
  }

  // ----- the same session with a socket that copies what it is given -----

  datatype Copying = Copying(wire: seq<byte>, pending: seq<byte>, busy: bool, backlog: seq<byte>)

  /** The backlog after s was put behind it. */
  function Keep(backlog: seq<byte>, s: seq<byte>): seq<byte> {
    if |backlog| + |s| <= CLI_TELNET_BUF_SIZE then backlog + s
    else (backlog + s)[..CLI_TELNET_BUF_SIZE] + CUT_MSG
  }

  function CopySend(c: Copying, s: seq<byte>, r: SocketResult): Copying {
    if s == [] then c
    else if c.backlog != [] || c.busy || r.Failed? then c.(backlog := Keep(c.backlog, s))
    else if r.Pending? then c.(pending := s, busy := true)
    else if r.Partial? && r.count < |s| then c.(wire := c.wire + s[..r.count])
    else c.(wire := c.wire + s)
  }

  function CopyFlush(c: Copying, r: SocketResult): Copying {
    var d := c.(wire := c.wire + c.pending, pending := [], busy := false);
    if c.backlog == [] then d else CopySend(d.(backlog := []), c.backlog, r)
  }

  function CopyNext(c: Copying, e: Event): Copying {
    match e
    case Submit(s, r) => CopySend(c, s, r)
    case Sending(n) =>
      var m := AtMost(n, |c.pending|);
      c.(wire := c.wire + c.pending[..m], pending := c.pending[m..])
    case DataSent(r) => CopyFlush(c, r)
  }

  function Copied(events: seq<Event>): Copying
    decreases |events|
  {
    if events == [] then Copying([], [], false, [])
    else CopyNext(Copied(events[..|events| - 1]), events[|events| - 1])
  }

  /** The two sessions differ at most in bytes in flight and bytes sent from there. */
  predicate InStep(o: Out, c: Copying)
    requires o.Valid()
  {
    && |o.wire| == |c.wire| && |o.InFlight()| == |c.pending|
    && (c.busy <==> o.flight != Idle) && (!c.busy ==> c.pending == []) && o.Backlog() == c.backlog
  }

  predicate Same(o: Out, c: Copying)
    requires o.Valid()
  {
    InStep(o, c) && o.wire == c.wire && o.InFlight() == c.pending
  }

  lemma AppendedBacklog(o: Out, s: seq<byte>)
    requires o.Valid() && s != []
    ensures Appended(o, s).Backlog() == Keep(o.Backlog(), s)
    ensures Appended(o, s).wire == o.wire && Appended(o, s).flight == o.flight && Appended(o, s).len > 0
  {
    var clen := Room(o.len, |s|);
    var moved := Write(o.buf, o.len, s[..clen]);
    assert moved[..o.len + clen] == o.buf[..o.len] + s[..clen];
    if clen < |s| {
      var kept := o.buf[..o.len] + s;
      assert Write(moved, CLI_TELNET_BUF_SIZE, CUT_MSG + [0])[..CUT_END] == moved[..CLI_TELNET_BUF_SIZE] + CUT_MSG;
      assert moved[..CLI_TELNET_BUF_SIZE] == moved[..o.len + clen][..CLI_TELNET_BUF_SIZE];
      assert kept[..CLI_TELNET_BUF_SIZE] == (o.buf[..o.len] + s[..clen])[..CLI_TELNET_BUF_SIZE];
    } else {
      assert s[..clen] == s;
    }
  }

  lemma InStepSubmit(o: Out, c: Copying, s: seq<byte>, own: bool, r: SocketResult)
    requires o.Valid() && InStep(o, c) && (own ==> Owns(o, s))
    ensures InStep(Send(o, s, own, r), CopySend(c, s, r))
    ensures Same(o, c) && !o.flight.Buffer? ==> Same(Send(o, s, own, r), CopySend(c, s, r))
  {
    hide Appended, Keep;
    if s != [] {
      AppendedBacklog(o, s);
    }
  }

  lemma InStepComplete(o: Out, c: Copying)
    requires o.Valid() && InStep(o, c)
    ensures var d := c.(wire := c.wire + c.pending, pending := [], busy := false);
            InStep(Complete(o), d) && (Same(o, c) ==> Same(Complete(o), d))
  {
  }

  lemma InStepFlush(o: Out, c: Copying, r: SocketResult)
    requires o.Valid() && InStep(o, c)
    ensures InStep(Flush(o, r), CopyFlush(c, r)) && (Same(o, c) ==> Same(Flush(o, r), CopyFlush(c, r)))
  {
    hide Send, CopySend, Complete;
    InStepComplete(o, c);
    CompleteIs(o);
    var p, d := Complete(o), c.(wire := c.wire + c.pending, pending := [], busy := false);
    if p.len > 0 {
      InStepSubmit(p.(len := 0), d.(backlog := []), p.Backlog(), true, r);
    }
  }

  lemma CompleteIs(o: Out)
    requires o.Valid()
    ensures Complete(o) == Out(o.wire + o.InFlight(), o.buf, o.len, Idle)
  {
  }

  lemma InStepSending(o: Out, c: Copying, n: nat)
    requires o.Valid() && InStep(o, c)
    ensures InStep(Next(o, Sending(n)), CopyNext(c, Sending(n)))
    ensures Same(o, c) ==> Same(Next(o, Sending(n)), CopyNext(c, Sending(n)))
  {
  }

  lemma InStepNext(o: Out, c: Copying, e: Event)
    requires o.Valid() && InStep(o, c)
    ensures InStep(Next(o, e), CopyNext(c, e))
    ensures Same(o, c) && (e.Submit? ==> !o.flight.Buffer?) ==> Same(Next(o, e), CopyNext(c, e))
  {
    hide Send, CopySend, Flush, CopyFlush, Transmit, InStep;
    match e
    case Submit(s, r) => InStepSubmit(o, c, s, false, r);
    case Sending(n) => InStepSending(o, c, n);
    case DataSent(r) => InStepFlush(o, c, r);
  }

  // ----- the fate of every byte -----

  /** The fate of a stretch of submitted bytes: handed to the socket at once, put into the backlog, replaced by a
      truncation marker, or dropped by a socket that took only the start of a block. Flushed marks where the backlog
      was handed to the socket. */
  datatype Stretch = Sent(bytes: seq<byte>) | Queued(bytes: seq<byte>) | Cut(bytes: seq<byte>)
                   | Dropped(bytes: seq<byte>) | Flushed

  function InputOf(s: Stretch): seq<byte> {
    if s.Flushed? then [] else s.bytes
  }

  function OutputOf(s: Stretch): seq<byte> {
    if s.Sent? || s.Queued? then s.bytes else if s.Cut? then CUT_MSG else []
  }

  /** The backlog after the stretch. */
  function QueueOf(queue: seq<byte>, s: Stretch): seq<byte> {
    if s.Queued? then queue + s.bytes else if s.Cut? then queue + CUT_MSG else []
  }

  function Input(log: seq<Stretch>): seq<byte> {
    if log == [] then [] else Input(log[..|log| - 1]) + InputOf(log[|log| - 1])
  }

  function Output(log: seq<Stretch>): seq<byte> {
    if log == [] then [] else Output(log[..|log| - 1]) + OutputOf(log[|log| - 1])
  }

  /** The backlog that the log leaves. */
  function Queue(log: seq<Stretch>): seq<byte> {
    if log == [] then [] else QueueOf(Queue(log[..|log| - 1]), log[|log| - 1])
  }

  /** Bytes go to the socket directly only past an empty backlog, and are cut only behind a backlog of exactly 256
      bytes, which then takes nothing more. */
  ghost predicate Orderly(log: seq<Stretch>) {
    log != [] ==>
      var init, last := log[..|log| - 1], log[|log| - 1];
      && Orderly(init)
      && (last.Sent? || last.Dropped? ==> Queue(init) == [])
      && (last.Queued? ==> |Queue(init)| + |last.bytes| <= CLI_TELNET_BUF_SIZE)
      && (last.Cut? ==> last.bytes != [] && |Queue(init)| == CLI_TELNET_BUF_SIZE)
  }

  ghost predicate NothingDropped(log: seq<Stretch>) {
    forall i :: 0 <= i < |log| ==> !log[i].Dropped?
  }

  /** The log explains the output and the backlog. */
  ghost predicate Explains(log: seq<Stretch>, submitted: seq<byte>, output: seq<byte>, backlog: seq<byte>) {
    Orderly(log) && Input(log) == submitted && Output(log) == output + backlog && Queue(log) == backlog
  }

  lemma LogSnoc(log: seq<Stretch>, s: Stretch)
    ensures Input(log + [s]) == Input(log) + InputOf(s) && Output(log + [s]) == Output(log) + OutputOf(s)
    ensures Queue(log + [s]) == QueueOf(Queue(log), s)
    ensures Orderly(log + [s]) <==>
              && Orderly(log)
              && (s.Sent? || s.Dropped? ==> Queue(log) == [])
              && (s.Queued? ==> |Queue(log)| + |s.bytes| <= CLI_TELNET_BUF_SIZE)
              && (s.Cut? ==> s.bytes != [] && |Queue(log)| == CLI_TELNET_BUF_SIZE)
  {
    assert (log + [s])[..|log|] == log;
  }

  lemma QueueEnds(log: seq<Stretch>)
    requires Orderly(log)
    ensures |Queue(log)| <= CLI_TELNET_BUF_SIZE
         || (&& log != [] && log[|log| - 1].Cut? && |Queue(log)| == CUT_END
             && Queue(log)[CLI_TELNET_BUF_SIZE..] == CUT_MSG)
  {
  }

  lemma KeepStep(log: seq<Stretch>, submitted: seq<byte>, output: seq<byte>, b: seq<byte>, s: seq<byte>)
    returns (log': seq<Stretch>)
    requires Explains(log, submitted, output, b) && s != []
    ensures Explains(log', submitted + s, output, Keep(b, s)) && (NothingDropped(log) ==> NothingDropped(log'))
  {
    hide Input, Output, Queue, Orderly;
    QueueEnds(log);
    if |b| + |s| <= CLI_TELNET_BUF_SIZE {
      log' := log + [Queued(s)];
      LogSnoc(log, Queued(s));
      Assoc(output, b, s);
    } else if |b| <= CLI_TELNET_BUF_SIZE {
      log' := CutStep(log, submitted, output, b, s);
    } else {
      log' := WidenStep(log, submitted, output, b, s);
    }
  }

  lemma CutStep(log: seq<Stretch>, submitted: seq<byte>, output: seq<byte>, b: seq<byte>, s: seq<byte>)
    returns (log': seq<Stretch>)
    requires Explains(log, submitted, output, b) && |b| <= CLI_TELNET_BUF_SIZE < |b| + |s|
    ensures Explains(log', submitted + s, output, Keep(b, s)) && (NothingDropped(log) ==> NothingDropped(log'))
  {
    hide Input, Output, Queue, Orderly;
    var room := CLI_TELNET_BUF_SIZE - |b|;
    var kept, lost := s[..room], s[room..];
    var filled := log + [Queued(kept)];
    log' := filled + [Cut(lost)];
    LogSnoc(log, Queued(kept));
    LogSnoc(filled, Cut(lost));
    assert kept + lost == s && (b + s)[..CLI_TELNET_BUF_SIZE] == b + kept;
    Assoc(submitted, kept, lost);
    Assoc(output, b, kept);
    Assoc(output, b + kept, CUT_MSG);
  }

  /** More bytes are lost to the same marker. */
  lemma WidenStep(log: seq<Stretch>, submitted: seq<byte>, output: seq<byte>, b: seq<byte>, s: seq<byte>)
    returns (log': seq<Stretch>)
    requires Explains(log, submitted, output, b) && |b| > CLI_TELNET_BUF_SIZE && s != []
    ensures Explains(log', submitted + s, output, Keep(b, s)) && (NothingDropped(log) ==> NothingDropped(log'))
  {
    hide Input, Output, Queue, Orderly;
    QueueEnds(log);
    var init, lost := log[..|log| - 1], log[|log| - 1].bytes;
    log' := init + [Cut(lost + s)];
    assert log == init + [Cut(lost)];
    LogSnoc(init, Cut(lost));
    LogSnoc(init, Cut(lost + s));
    Assoc(Input(init), lost, s);
    assert (b + s)[..CLI_TELNET_BUF_SIZE] == b[..CLI_TELNET_BUF_SIZE];
    assert b == b[..CLI_TELNET_BUF_SIZE] + b[CLI_TELNET_BUF_SIZE..];
  }

  lemma SendStep(log: seq<Stretch>, submitted: seq<byte>, c: Copying, s: seq<byte>, r: SocketResult)
    returns (log': seq<Stretch>)
    requires Explains(log, submitted, c.wire + c.pending, c.backlog) && (!c.busy ==> c.pending == [])
    ensures var d := CopySend(c, s, r);
            && Explains(log', submitted + s, d.wire + d.pending, d.backlog) && (!d.busy ==> d.pending == [])
            && (!r.Partial? && NothingDropped(log) ==> NothingDropped(log'))
  {
    hide Input, Output, Queue, Orderly, Keep;
    if s == [] {
      log' := log;
      assert submitted + [] == submitted;
    } else if c.backlog != [] || c.busy || r.Failed? {
      log' := KeepStep(log, submitted, c.wire + c.pending, c.backlog, s);
    } else if r.Partial? && r.count < |s| {
      log' := DropStep(log, submitted, c.wire, s, r.count);
    } else {
      log' := log + [Sent(s)];
      LogSnoc(log, Sent(s));
      assert c.wire + [] == c.wire && (c.wire + s) + [] == c.wire + s;
      assert c.wire + s + [] == c.wire + s;
    }
  }

  lemma DropStep(log: seq<Stretch>, submitted: seq<byte>, wire: seq<byte>, s: seq<byte>, n: nat)
    returns (log': seq<Stretch>)
    requires Explains(log, submitted, wire + [], []) && n < |s|
    ensures Explains(log', submitted + s, wire + s[..n] + [], [])
  {
    hide Input, Output, Queue, Orderly;
    var sent := log + [Sent(s[..n])];
    log' := sent + [Dropped(s[n..])];
    LogSnoc(log, Sent(s[..n]));
    LogSnoc(sent, Dropped(s[n..]));
    assert s[..n] + s[n..] == s;
    Assoc(submitted, s[..n], s[n..]);
    assert wire + [] == wire && wire + s[..n] + [] == wire + s[..n];
  }

  /** The socket takes only a part of what waits: the session ends. */
  predicate CutsFlush(c: Copying, r: SocketResult) {
    r.Partial? && r.count < |c.backlog|
  }

  lemma FlushStep(log: seq<Stretch>, submitted: seq<byte>, c: Copying, r: SocketResult) returns (log': seq<Stretch>)
    requires Explains(log, submitted, c.wire + c.pending, c.backlog) && !CutsFlush(c, r)
    ensures var d := CopyFlush(c, r);
            && Explains(log', submitted, d.wire + d.pending, d.backlog) && (!d.busy ==> d.pending == [])
            && (NothingDropped(log) ==> NothingDropped(log'))
  {
    hide Input, Output, Queue, Orderly;
    var b, stream := c.backlog, c.wire + c.pending;
    QueueEnds(log);
    assert stream + [] == stream;
    if b == [] || r.Failed? {
      log' := log;
      assert [] + b == b;
      if |b| > CLI_TELNET_BUF_SIZE {
        assert b == b[..CLI_TELNET_BUF_SIZE] + b[CLI_TELNET_BUF_SIZE..];
      }
    } else {
      log' := log + [Flushed];
      LogSnoc(log, Flushed);
      assert submitted + [] == submitted && Output(log) + [] == Output(log);
      assert stream + b + [] == stream + b;
    }
  }

  /** No flush was cut short. */
  predicate GoesOn(events: seq<Event>)
    decreases |events|
  {
    events != [] ==>
      var init, last := events[..|events| - 1], events[|events| - 1];
      GoesOn(init) && (last.DataSent? ==> !CutsFlush(Copied(init), last.r))
  }

  predicate TakesPart(e: Event) {
    !e.Sending? && e.r.Partial?
  }

  /** With a socket that copies what it is given, everything submitted is accounted for. */
  lemma {:induction false} CopyConservation(events: seq<Event>) returns (log: seq<Stretch>)
    requires GoesOn(events)
    ensures var c := Copied(events);
            && Explains(log, Submitted(events), c.wire + c.pending, c.backlog) && (!c.busy ==> c.pending == [])
    ensures (forall e :: e in events ==> !TakesPart(e)) ==> NothingDropped(log)
    decreases |events|
  {
    hide Explains, CopySend, CopyFlush;
    if events == [] {
      log := [];
      NothingYet();
    } else {
      var init, last := events[..|events| - 1], events[|events| - 1];
      log := CopyConservation(init);
      assert events == init + [last];
      assert last in events && forall e :: e in init ==> e in events;
      var c := Copied(init);
      match last {
        case Submit(s, r) => log := SendStep(log, Submitted(init), c, s, r);
        case Sending(n) =>
          var m := AtMost(n, |c.pending|);
          assert c.pending == c.pending[..m] + c.pending[m..];
          Assoc(c.wire, c.pending[..m], c.pending[m..]);
          assert Submitted(init) + [] == Submitted(init);
        case DataSent(r) =>
          log := FlushStep(log, Submitted(init), c, r);
          assert Submitted(init) + [] == Submitted(init);
      }
    }
  }

  lemma NothingYet()
    ensures Explains([], [], [] + [], [])
  {
  }

  // ----- what a loss is told by -----

  /** How many bytes have been sent, are in flight, or wait. */
  function Held(o: Out): nat
    requires o.Valid()
  {
    |o.wire| + |o.InFlight()| + |o.Backlog()|
  }

  /** A submission is answered with an error exactly if some of its bytes are nowhere and no marker stands behind 256
      bytes that wait. */
  lemma LossAnswered(o: Out, s: seq<byte>, own: bool, r: SocketResult)
    requires o.Valid() && (own ==> Owns(o, s))
    ensures var o' := Send(o, s, own, r);
            Loses(o, s, r) <==> Held(o') < Held(o) + |s| && |o'.Backlog()| <= 256
  {
    hide Appended;
    if s != [] && (o.len > 0 || o.flight != Idle || r.Failed?) {
      AppendedBacklog(o, s);
    }
  }

  /** A flush ends the session exactly if some of what waited is nowhere afterwards. */
  lemma LossEndsSession(o: Out, r: SocketResult)
    requires o.Valid()
    ensures Loses(Complete(o).(len := 0), o.Backlog(), r) <==> Held(Flush(o, r)) < Held(o)
  {
    hide Appended;
    var c := Complete(o).(len := 0);
    if o.len > 0 && r.Failed? {
      AppendedBacklog(c, o.Backlog());
    }
  }

  /** "<..data truncated..>" with a line end, as bytes. */
  function Marker(): seq<byte> {
    seq(22, i requires 0 <= i < 22 => ByteOf("<..data truncated..>\r\n"[i]))
  }

  function ByteOf(c: char): byte {
    if c < 128 as char then c as int else 0
  }

  /** What has to wait stands in a buffer of 281 bytes behind what waited: whole, or cut at 256 bytes with the marker
      in place of the rest. */
  lemma WaitsBehind(o: Out, s: seq<byte>, own: bool, r: SocketResult)
    requires o.Valid() && (own ==> Owns(o, s)) && s != [] && (o.len > 0 || o.flight != Idle || r.Failed?)
    ensures var b, o' := o.Backlog(), Send(o, s, own, r);
            && |o'.buf| == 281 && o'.wire == o.wire && o'.flight == o.flight
            && o'.Backlog() == if |b| + |s| <= 256 then b + s else (b + s)[..256] + Marker()
  {
    hide Appended;
    AppendedBacklog(o, s);
    assert CUT_MSG == Marker();
  }
}
