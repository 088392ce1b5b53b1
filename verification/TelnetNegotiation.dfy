/** Telnet option negotiation: one session's transitions, and two sessions running them against each other. */
module TelnetNegotiation {
  import opened Bytes

  const MAX_CLI_TELNET_OPTIONS: nat := 256

  datatype OptionState = Disable | Enable | ExpectDisable | ExpectEnable | ExpectDisableRev | ExpectEnableRev

  datatype Verb = Will | Wont | Do | Dont

  /** IAC verb option. */
  datatype Command = Command(verb: Verb, option: byte)

  /** One negotiation: an option on our side (local) or on the peer's. */
  datatype Key = Key(local: bool, option: byte)

  /** A command a session sends about key: WILL and WONT about its own side, DO and DONT about the peer's. */
  function Say(key: Key, on: bool): Command {
    Command(if key.local then (if on then Will else Wont) else (if on then Do else Dont), key.option)
  }

  function SaidAbout(c: Command): Key {
    Key(c.verb.Will? || c.verb.Wont?, c.option)
  }

  /** The receiver's name for the negotiation the command is about. */
  function HeardAbout(c: Command): Key {
    Key(c.verb.Do? || c.verb.Dont?, c.option)
  }

  predicate On(c: Command) {
    c.verb.Will? || c.verb.Do?
  }

  function Mirror(key: Key): Key {
    Key(!key.local, key.option)
  }

  // ----- transitions of one option -----

  /** A new state and, when there is one, the on or off that is sent. */
  datatype Reaction = Reaction(state: OptionState, reply: Option<bool>)

  function SendEnable(state: OptionState): Reaction {
    match state
    case Enable => Reaction(Enable, None)
    case Disable => Reaction(ExpectEnable, Some(true))
    case ExpectEnable => Reaction(Disable, None)
    case ExpectDisable => Reaction(ExpectDisableRev, None)
    case ExpectEnableRev => Reaction(ExpectEnable, None)
    case ExpectDisableRev => Reaction(Disable, None)
  }

  function ReceiveEnable(state: OptionState, allowed: bool): Reaction {
    match state
    case Enable => Reaction(Enable, None)
    case Disable => if allowed then Reaction(Enable, Some(true)) else Reaction(Disable, Some(false))
    case ExpectEnable => Reaction(Enable, None)
    case ExpectDisable => Reaction(Disable, None)
    case ExpectEnableRev => Reaction(ExpectDisable, Some(false))
    case ExpectDisableRev => Reaction(ExpectDisable, None)
  }

  function ReceiveDisable(state: OptionState): Reaction {
    match state
    case Enable => Reaction(Disable, Some(false))
    case Disable => Reaction(Disable, None)
    case ExpectEnable => Reaction(Disable, None)
    case ExpectDisable => Reaction(Disable, None)
    case ExpectEnableRev => Reaction(Disable, Some(false))
    case ExpectDisableRev => Reaction(ExpectEnable, Some(true))
  }

  // ----- the option table of a session -----

  /** The telnet_option array: state and permission of every option, on our side and on the peer's. */
  datatype Table = Table(local: seq<OptionState>, peer: seq<OptionState>, localOk: seq<bool>, peerOk: seq<bool>) {
    predicate Valid() {
      |local| == |peer| == |localOk| == |peerOk| == MAX_CLI_TELNET_OPTIONS
    }

    function State(key: Key): OptionState
      requires Valid()
    {
      if key.local then local[key.option] else peer[key.option]
    }

    function Allowed(key: Key): bool
      requires Valid()
    {
      if key.local then localOk[key.option] else peerOk[key.option]
    }

    function With(key: Key, state: OptionState): (t: Table)
      requires Valid()
      ensures t.Valid()
      ensures forall k: Key :: t.State(k) == if k == key then state else State(k)
      ensures forall k: Key :: t.Allowed(k) == Allowed(k)
    {
      if key.local then this.(local := local[key.option := state]) else this.(peer := peer[key.option := state])
    }
  }

  datatype Reply = Reply(table: Table, commands: seq<Command>)

  function React(t: Table, key: Key, r: Reaction): (s: Reply)
    requires t.Valid()
    ensures s.table.Valid()
  {
    Reply(t.With(key, r.state), if r.reply.Some? then [Say(key, r.reply.value)] else [])
  }

  function Offer(t: Table, key: Key): (s: Reply)
    requires t.Valid()
    ensures s.table.Valid()
  {
    React(t, key, SendEnable(t.State(key)))
  }

  function Receive(t: Table, c: Command): (s: Reply)
    requires t.Valid()
    ensures s.table.Valid()
  {
    var key := HeardAbout(c);
    React(t, key, if On(c) then ReceiveEnable(t.State(key), t.Allowed(key)) else ReceiveDisable(t.State(key)))
  }

  // ----- the session -----

  class TelnetOptions {
    const localState: array<OptionState>
    const peerState: array<OptionState>
    const localIsEnable: array<bool>
    const peerIsEnable: array<bool>
    /** The commands handed to the socket, oldest first. */
    var sent: seq<Command>

    ghost predicate Valid()
      reads this
    {
      && localState.Length == peerState.Length == MAX_CLI_TELNET_OPTIONS
      && localIsEnable.Length == peerIsEnable.Length == MAX_CLI_TELNET_OPTIONS
      && localState != peerState && localIsEnable != peerIsEnable
    }

    ghost function Contents(): (t: Table)
      requires Valid()
      reads this, localState, peerState, localIsEnable, peerIsEnable
      ensures t.Valid()
    {
      Table(localState[..], peerState[..], localIsEnable[..], peerIsEnable[..])
    }

    constructor ()
      ensures Valid() && sent == []
      ensures fresh(localState) && fresh(peerState) && fresh(localIsEnable) && fresh(peerIsEnable)
      ensures forall k: Key :: Contents().State(k) == Disable && !Contents().Allowed(k)
    {
      localState := new OptionState[MAX_CLI_TELNET_OPTIONS](_ => Disable);
      peerState := new OptionState[MAX_CLI_TELNET_OPTIONS](_ => Disable);
      localIsEnable := new bool[MAX_CLI_TELNET_OPTIONS](_ => false);
      peerIsEnable := new bool[MAX_CLI_TELNET_OPTIONS](_ => false);
      sent := [];
    }

    method SetState(key: Key, state: OptionState)
      requires Valid()
      modifies localState, peerState
      ensures Contents() == old(Contents().With(key, state))
    {
      if key.local {
        localState[key.option] := state;
      } else {
        peerState[key.option] := state;
      }
    }

    method SendTelnetCmd(c: Command)
      modifies this
      ensures sent == old(sent) + [c]
    {
      sent := sent + [c];
    }

    method SendEnableOption(isLocal: bool, option: byte)
      requires Valid()
      modifies this, localState, peerState
      ensures Valid()
      ensures Reply(Contents(), sent)
           == old(var r := Offer(Contents(), Key(isLocal, option)); Reply(r.table, sent + r.commands))
    {
      var key := Key(isLocal, option);
      var state := if isLocal then localState[option] else peerState[option];
      match state {
        case Enable =>
        case Disable =>
          SetState(key, ExpectEnable);
          SendTelnetCmd(Command(if isLocal then Will else Do, option));
        case ExpectEnable => SetState(key, Disable);
        case ExpectDisable => SetState(key, ExpectDisableRev);
        case ExpectEnableRev => SetState(key, ExpectEnable);
        case ExpectDisableRev => SetState(key, Disable);
      }
    }

    method ReceiveEnableOption(isLocal: bool, option: byte)
      requires Valid()
      modifies this, localState, peerState
      ensures Valid()
      ensures Reply(Contents(), sent)
           == old(var r := Receive(Contents(), Command(if isLocal then Do else Will, option));
                  Reply(r.table, sent + r.commands))
    {
      var key := Key(isLocal, option);
      var state := if isLocal then localState[option] else peerState[option];
      var allowed := if isLocal then localIsEnable[option] else peerIsEnable[option];
      match state {
        case Enable =>
        case Disable =>
          if allowed {
            SetState(key, Enable);
            SendTelnetCmd(Command(if isLocal then Will else Do, option));
          } else {
            SendTelnetCmd(Command(if isLocal then Wont else Dont, option));
          }
        case ExpectEnable => SetState(key, Enable);
        case ExpectDisable => SetState(key, Disable);
        case ExpectEnableRev =>
          SetState(key, ExpectDisable);
          SendTelnetCmd(Command(if isLocal then Wont else Dont, option));
        case ExpectDisableRev => SetState(key, ExpectDisable);
      }
    }

    method ReceiveDisableOption(isLocal: bool, option: byte)
      requires Valid()
      modifies this, localState, peerState
      ensures Valid()
      ensures Reply(Contents(), sent)
           == old(var r := Receive(Contents(), Command(if isLocal then Dont else Wont, option));
                  Reply(r.table, sent + r.commands))
    {
      var key := Key(isLocal, option);
      var state := if isLocal then localState[option] else peerState[option];
      match state {
        case Enable =>
          SetState(key, Disable);
          SendTelnetCmd(Command(if isLocal then Wont else Dont, option));
        case Disable =>
        case ExpectEnable => SetState(key, Disable);
        case ExpectDisable => SetState(key, Disable);
        case ExpectEnableRev =>
          SetState(key, Disable);
          SendTelnetCmd(Command(if isLocal then Wont else Dont, option));
        case ExpectDisableRev =>
          SetState(key, ExpectEnable);
          SendTelnetCmd(Command(if isLocal then Will else Do, option));
      }
    }

    method SetLocalOption(option: byte, enable: bool)
      requires Valid()
      modifies localIsEnable
      ensures localIsEnable[..] == old(localIsEnable[..])[option := enable]
    {
      localIsEnable[option] := enable;
    }

    method SetPeerOption(option: byte, enable: bool)
      requires Valid()
      modifies peerIsEnable
      ensures peerIsEnable[..] == old(peerIsEnable[..])[option := enable]
    {
      peerIsEnable[option] := enable;
    }

    method PermitLocal()
      requires Valid()
      modifies localIsEnable
      ensures forall i: byte :: localIsEnable[..][i] ==
                if OpensAllowed(Key(true, i)) then true else old(localIsEnable[..])[i]
    {
      SetLocalOption(TRANSMIT_BINARY, true);
      SetLocalOption(STATUS, true);
      SetLocalOption(SUPPRESS_GA, true);
      SetLocalOption(TIMING_MARK, true);
      SetLocalOption(TERM_SPEED, true);
      SetLocalOption(TERM_TYPE, true);
    }

    method PermitPeer()
      requires Valid()
      modifies peerIsEnable
      ensures forall i: byte :: peerIsEnable[..][i] ==
                if OpensAllowed(Key(false, i)) then true else old(peerIsEnable[..])[i]
    {
      SetPeerOption(TRANSMIT_BINARY, true);
      SetPeerOption(SUPPRESS_GA, true);
      SetPeerOption(STATUS, true);
      SetPeerOption(TIMING_MARK, true);
      SetPeerOption(TERM_ECHO, true);
    }

    /** The permissions a session starts with. */
    method Permit()
      requires Valid()
      requires forall k: Key :: !Contents().Allowed(k)
      modifies localIsEnable, peerIsEnable
      ensures Contents().local == old(Contents().local) && Contents().peer == old(Contents().peer)
      ensures forall k: Key :: Contents().Allowed(k) == OpensAllowed(k)
    {
      hide OpensAllowed;
      forall i: byte ensures !localIsEnable[..][i] && !peerIsEnable[..][i] {
        assert !Contents().Allowed(Key(true, i)) && !Contents().Allowed(Key(false, i));
      }
      PermitLocal();
      PermitPeer();
    }

    /** The permissions and offers a session starts with. */
    method Open()
      requires Valid() && sent == []
      requires forall k: Key :: Contents().State(k) == Disable && !Contents().Allowed(k)
      modifies this, localState, peerState, localIsEnable, peerIsEnable
      ensures Valid()
      ensures sent == [Say(Key(false, SUPPRESS_GA), true), Say(Key(true, TERM_ECHO), true),
                       Say(Key(true, STATUS), true), Say(Key(true, SUPPRESS_GA), true)]
      ensures forall k: Key :: Contents().Allowed(k) == OpensAllowed(k)
      ensures forall k: Key :: Contents().State(k) == if k in OPENING_OFFERS then ExpectEnable else Disable
    {
      hide OpensAllowed;
      ghost var t := Contents();
      Permit();
      assert forall k: Key :: t.State(k) == Disable;
      assert forall k: Key :: Contents().State(k) == t.State(k);
      SendEnableOption(false, SUPPRESS_GA);
      SendEnableOption(true, TERM_ECHO);
      SendEnableOption(true, STATUS);
      SendEnableOption(true, SUPPRESS_GA);
    }
  }

  const TRANSMIT_BINARY: byte := 0
  const TERM_ECHO: byte := 1
  const SUPPRESS_GA: byte := 3
  const STATUS: byte := 5
  const TIMING_MARK: byte := 6
  const TERM_TYPE: byte := 24
  const TERM_SPEED: byte := 32

  /** What a session permits from the start. */
  predicate OpensAllowed(key: Key) {
    || key.option == TRANSMIT_BINARY || key.option == STATUS || key.option == SUPPRESS_GA || key.option == TIMING_MARK
    || (if key.local then key.option == TERM_SPEED || key.option == TERM_TYPE else key.option == TERM_ECHO)
  }

  const OPENING_OFFERS: seq<Key> :=
    [Key(false, SUPPRESS_GA), Key(true, TERM_ECHO), Key(true, STATUS), Key(true, SUPPRESS_GA)]
}
