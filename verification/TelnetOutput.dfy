/** The bounded backlog between a telnet session and its socket, and what reaches the wire. */
module TelnetOutput {
  import opened Bytes

  const CLI_TELNET_BUF_SIZE: nat := 256
  const MAX_CUT_MSG_LEN: nat := 25

  /** "<..data truncated..>" CR LF. */
  const CUT_MSG: seq<byte> :=
    [60, 46, 46, 100, 97, 116, 97, 32, 116, 114, 117, 110, 99, 97, 116, 101, 100, 46, 46, 62, 13, 10]

  const CUT_END: nat := CLI_TELNET_BUF_SIZE + |CUT_MSG|

  /** What pj_activesock_send does with a block: takes it whole, keeps its address to send later, takes only its first
      bytes, or fails and takes nothing. While an earlier block is still to be sent it fails. */
  datatype SocketResult = Taken | Pending | Partial(count: nat) | Failed

  datatype Status = Success | TelnetLost

  /** The bytes whose address the socket keeps: none, the caller's, or a region of the session's own buffer. */
  datatype Flight = Idle | Caller(rest: seq<byte>) | Buffer(from: nat, to: nat)

  /** Everything sent so far, the session's buffer with the length of what waits in it, and what is in flight. */
  datatype Out = Out(wire: seq<byte>, buf: seq<byte>, len: nat, flight: Flight) {
    predicate Valid() {
      && |buf| == CLI_TELNET_BUF_SIZE + MAX_CUT_MSG_LEN
      && Stretch(len)
      && (flight.Buffer? ==> flight.from <= flight.to && Stretch(flight.to))
    }

    /** The buffer was filled up to here at some time: not further than the marker, if it holds one. */
    predicate Stretch(end: nat)
      requires |buf| == CLI_TELNET_BUF_SIZE + MAX_CUT_MSG_LEN
    {
      end <= CLI_TELNET_BUF_SIZE || (end == CUT_END && buf[CLI_TELNET_BUF_SIZE..end] == CUT_MSG)
    }

    function Backlog(): seq<byte>
      requires Valid()
    {
      buf[..len]
    }

    /** What the socket will read where it kept an address. */
    function InFlight(): seq<byte>
      requires Valid()
    {
      match flight
      case Idle => []
      case Caller(rest) => rest
      case Buffer(from, to) => buf[from..to]
    }
  }

  function Write(buf: seq<byte>, at: nat, s: seq<byte>): (b: seq<byte>)
    requires at + |s| <= |buf|
    ensures |b| == |buf|
  {
    buf[..at] + s + buf[at + |s|..]
  }

  lemma WriteNothing(buf: seq<byte>, at: nat)
    requires at <= |buf|
    ensures Write(buf, at, []) == buf
  {
  }

  /** How many bytes of a block of n still fit behind len others. */
  function Room(len: nat, n: nat): (r: nat)
    ensures r <= n && (r > 0 ==> len + r <= CLI_TELNET_BUF_SIZE)
  {
    if len + n <= CLI_TELNET_BUF_SIZE then n else if len < CLI_TELNET_BUF_SIZE then CLI_TELNET_BUF_SIZE - len else 0
  }

  /** The block is put behind what waits, as far as it fits; a marker stands for the rest. */
  function Appended(o: Out, s: seq<byte>): (o': Out)
    requires o.Valid()
    ensures o'.Valid()
  {
    var clen := Room(o.len, |s|);
    var moved := Write(o.buf, o.len, s[..clen]);
    if clen < |s| then o.(buf := Write(moved, CLI_TELNET_BUF_SIZE, CUT_MSG + [0]), len := CUT_END)
    else o.(buf := moved, len := o.len + clen)
  }

  /** The block is the session's own buffer, from its start. */
  predicate Owns(o: Out, s: seq<byte>)
    requires o.Valid()
  {
    o.Stretch(|s|) && s == o.buf[..|s|]
  }

  function Send(o: Out, s: seq<byte>, own: bool, r: SocketResult): (o': Out)
    requires o.Valid() && (own ==> Owns(o, s))
    ensures o'.Valid()
  {
    if s == [] then o
    else if o.len > 0 || o.flight != Idle || r.Failed? then Appended(o, s)
    else if r.Pending? then o.(flight := if own then Buffer(0, |s|) else Caller(s))
    else if r.Partial? && r.count < |s| then o.(wire := o.wire + s[..r.count])
    else o.(wire := o.wire + s)
  }

  predicate Loses(o: Out, s: seq<byte>, r: SocketResult) {
    s != [] && o.len == 0 && o.flight == Idle && r.Partial? && r.count < |s|
  }

  /** The socket reads and sends the next n bytes in flight. */
  function Transmit(o: Out, n: nat): (o': Out)
    requires o.Valid() && n <= |o.InFlight()|
    ensures o'.Valid()
  {
    var sent := o.(wire := o.wire + o.InFlight()[..n]);
    match o.flight
    case Idle => o
    case Caller(rest) => sent.(flight := Caller(rest[n..]))
    case Buffer(from, to) => sent.(flight := Buffer(from + n, to))
  }

  function Complete(o: Out): (o': Out)
    requires o.Valid()
    ensures o'.Valid()
  {
    o.(wire := o.wire + o.InFlight(), flight := Idle)
  }

  /** The socket has sent what was in flight: what waits is sent from the buffer itself, which counts as empty. */
  function Flush(o: Out, r: SocketResult): (o': Out)
    requires o.Valid()
    ensures o'.Valid()
  {
    var c := Complete(o);
    if c.len == 0 then c else Send(c.(len := 0), c.Backlog(), true, r)
  }

  class Outbox {
    const buf: array<byte>
    var bufLen: nat
    var flight: Flight
    ghost var wire: seq<byte>

    ghost function Contents(): Out
      reads this, buf
    {
      Out(wire, buf[..], bufLen, flight)
    }

    constructor ()
      ensures fresh(buf) && Contents().Valid()
      ensures Contents().wire == [] && Contents().len == 0 && Contents().flight == Idle
    {
      buf := new byte[CLI_TELNET_BUF_SIZE + MAX_CUT_MSG_LEN](_ => 0);
      bufLen := 0;
      flight := Idle;
      wire := [];
    }

    /** telnet_sess_send, where the socket answers r if nothing is in flight; own says that str is the buffer. */
    method SessSend(s: seq<byte>, own: bool, r: SocketResult) returns (status: Status)
      requires Contents().Valid() && (own ==> Owns(Contents(), s))
      modifies this, buf
      ensures Contents() == old(Send(Contents(), s, own, r))
      ensures status == if old(Loses(Contents(), s, r)) then TelnetLost else Success
    {
      var sz := |s|;
      if sz == 0 {
        return Success;
      }
      if bufLen == 0 && flight == Idle && !r.Failed? {
        if r.Pending? {
          flight := if own then Buffer(0, sz) else Caller(s);
          return Success;
        }
        if r.Partial? && r.count < sz {
          wire := wire + s[..r.count];
          return TelnetLost;
        }
        wire := wire + s;
        return Success;
      }
      Append(s);
      status := Success;
    }

    /** pj_memmove of s to the position. */
    method Put(at: nat, s: seq<byte>)
      requires at + |s| <= buf.Length
      modifies buf
      ensures buf[..] == Write(old(buf[..]), at, s)
    {
      forall i | 0 <= i < |s| {
        buf[at + i] := s[i];
      }
    }

    method Append(s: seq<byte>)
      requires Contents().Valid() && s != []
      modifies this, buf
      ensures Contents() == old(Appended(Contents(), s))
    {
      hide Write;
      var clen: int := |s|;
      if bufLen + clen > CLI_TELNET_BUF_SIZE {
        clen := CLI_TELNET_BUF_SIZE - bufLen;
      }
      if clen > 0 {
        Put(bufLen, s[..clen]);
      }
      WriteNothing(buf[..], bufLen);
      if clen < |s| {
        Put(CLI_TELNET_BUF_SIZE, CUT_MSG + [0]);
        bufLen := CUT_END;
      } else {
        bufLen := bufLen + clen;
      }
    }

    /** telnet_sess_on_data_sent, after what was in flight has been sent; the answer is whether the session goes on. */
    method OnDataSent(sent: int, r: SocketResult) returns (goesOn: bool)
      requires Contents().Valid()
      modifies this, buf
      ensures sent <= 0 ==> !goesOn && Contents() == old(Contents())
      ensures sent > 0 ==> Contents() == old(Flush(Contents(), r))
      ensures sent > 0 ==> goesOn == !old(Loses(Complete(Contents()).(len := 0), Contents().Backlog(), r))
    {
      if sent <= 0 {
        return false;
      }
      wire := wire + Contents().InFlight();
      flight := Idle;
      if bufLen != 0 {
        var waiting := buf[..bufLen];
        bufLen := 0;
        var status := SessSend(waiting, true, r);
        if status != Success {
          return false;
        }
      }
      goesOn := true;
    }
  }
}
