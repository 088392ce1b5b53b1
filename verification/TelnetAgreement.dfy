/** What every run of option negotiation keeps, against any peer and between two sessions. */
module TelnetAgreement {
  import opened Bytes
  import opened TelnetLink
  import opened TelnetNegotiation

  ghost predicate Idle(t: Table) {
    t.Valid() && forall k: Key :: t.State(k) == Disable
  }

  /** The session made the offers in order, before it read anything. */
  function Begin(t: Table, offers: seq<Key>): (s: Reply)
    requires t.Valid()
    ensures s.table.Valid()
  {
    if offers == [] then Reply(t, []) else
      var before := Begin(t, offers[..|offers| - 1]);
      var last := Offer(before.table, offers[|offers| - 1]);
      Reply(last.table, before.commands + last.commands)
  }

  /** How often the key is among the offers. */
  function Times(offers: seq<Key>, key: Key): nat {
    if offers == [] then 0
    else Times(offers[..|offers| - 1], key) + (if offers[|offers| - 1] == key then 1 else 0)
  }

  /** What a channel carries about one negotiation. */
  function About(channel: seq<Command>, key: Key): seq<bool> {
    if channel == [] then [] else
      (if SaidAbout(channel[0]) == key then [On(channel[0])] else []) + About(channel[1..], key)
  }

  lemma {:induction false} AboutAppend(channel: seq<Command>, more: seq<Command>, key: Key)
    ensures About(channel + more, key) == About(channel, key) + About(more, key)
  {
    if channel == [] {
      assert channel + more == more;
    } else {
      assert (channel + more)[1..] == channel[1..] + more;
      AboutAppend(channel[1..], more, key);
    }
  }

  lemma AboutOne(about: Key, on: bool, key: Key)
    ensures About([Say(about, on)], key) == if key == about then [on] else []
  {
    assert [Say(about, on)][1..] == [];
  }

  function Ons(n: nat): (bs: seq<bool>)
    ensures |bs| == n
  {
    seq(n, _ => true)
  }

  lemma {:induction false} BeginOffers(t: Table, offers: seq<Key>, k: Key)
    requires Idle(t)
    ensures var s := Begin(t, offers);
            && s.table.State(k) == Offered(Times(offers, k)) && s.table.Allowed(k) == t.Allowed(k)
            && About(s.commands, k) == Ons((Times(offers, k) + 1) / 2)
  {
    hide Offer, About, Offered, Table.State, Table.Allowed;
    if offers == [] {
      NothingOffered(t, k);
    } else {
      var init, last := offers[..|offers| - 1], offers[|offers| - 1];
      BeginOffers(t, init, k);
      BeginOffers(t, init, last);
      var before := Begin(t, init);
      AboutAppend(before.commands, Offer(before.table, last).commands, k);
      OfferOne(before.table, last, k, Times(init, last));
      OnsSnoc((Times(init, k) + 1) / 2);
    }
  }

  lemma NothingOffered(t: Table, k: Key)
    requires Idle(t)
    ensures t.State(k) == Offered(0) && About([], k) == Ons(0)
  {
  }

  lemma OnsSnoc(n: nat)
    ensures Ons(n) + [true] == Ons(n + 1) && Ons(n) + [] == Ons(n)
  {
  }

  /** The offer after n others of the same option. */
  lemma OfferOne(t: Table, key: Key, k: Key, n: nat)
    requires t.Valid() && t.State(key) == Offered(n)
    ensures var s := Offer(t, key);
            && s.table.Allowed(k) == t.Allowed(k)
            && s.table.State(k) == (if k == key then Offered(n + 1) else t.State(k))
            && About(s.commands, k) == if k == key && n % 2 == 0 then [true] else []
  {
    hide Table.With, Table.State, Table.Allowed;
    AboutOne(key, true, k);
  }

  // ----- one session against any peer -----

  /** The table and everything sent after receiving the commands in order. */
  function ReceiveAll(t: Table, received: seq<Command>): (s: Reply)
    requires t.Valid()
    ensures s.table.Valid()
    decreases |received|
  {
    if received == [] then Reply(t, []) else
      var before := ReceiveAll(t, received[..|received| - 1]);
      var last := Receive(before.table, received[|received| - 1]);
      Reply(last.table, before.commands + last.commands)
  }

  lemma ReceiveSnoc(t: Table, received: seq<Command>, c: Command)
    requires t.Valid()
    ensures var before := ReceiveAll(t, received);
            var last := Receive(before.table, c);
            ReceiveAll(t, received + [c]) == Reply(last.table, before.commands + last.commands)
  {
    assert (received + [c])[..|received|] == received;
  }

  /** Whatever was offered and whatever the peer sends, every option stays in three states, no command draws more than
      one reply, and an option is on only where it was permitted or offered. */
  lemma {:induction false} AnyPeer(t: Table, offers: seq<Key>, received: seq<Command>)
    requires Idle(t)
    ensures var s := ReceiveAll(Begin(t, offers).table, received);
            && |s.commands| <= |received|
            && (forall k: Key :: s.table.Allowed(k) == t.Allowed(k))
            && (forall k: Key :: s.table.State(k) in {Disable, Enable, ExpectEnable})
            && (forall k: Key :: s.table.State(k) == ExpectEnable ==> Times(offers, k) % 2 == 1)
            && (forall k: Key :: s.table.State(k) == Enable ==> Times(offers, k) % 2 == 1 || t.Allowed(k))
    decreases |received|
  {
    if received == [] {
      forall k: Key
        ensures var s := Begin(t, offers).table; s.State(k) == Offered(Times(offers, k)) && s.Allowed(k) == t.Allowed(k)
      {
        BeginOffers(t, offers, k);
      }
    } else {
      AnyPeer(t, offers, received[..|received| - 1]);
    }
  }

  // ----- two sessions and the connection between them -----

  /** Two sessions and the commands on their way from a to b and from b to a. */
  datatype System = System(a: Table, b: Table, ab: seq<Command>, ba: seq<Command>) {
    predicate Valid() {
      a.Valid() && b.Valid()
    }

    function Flip(): System {
      System(b, a, ba, ab)
    }
  }

  function DeliverToB(s: System): (s': System)
    requires s.Valid() && s.ab != []
    ensures s'.Valid()
  {
    var r := Receive(s.b, s.ab[0]);
    System(s.a, r.table, s.ab[1..], s.ba + r.commands)
  }

  function DeliverToA(s: System): (s': System)
    requires s.Valid() && s.ba != []
    ensures s'.Valid()
  {
    var r := Receive(s.a, s.ba[0]);
    System(r.table, s.b, s.ab + r.commands, s.ba[1..])
  }

  ghost predicate Step(s: System, s': System) {
    s.Valid() && ((s.ab != [] && s' == DeliverToB(s)) || (s.ba != [] && s' == DeliverToA(s)))
  }

  function Start(a: Table, b: Table, fromA: seq<Key>, fromB: seq<Key>): System
    requires a.Valid() && b.Valid()
  {
    System(Begin(a, fromA).table, Begin(b, fromB).table, Begin(a, fromA).commands, Begin(b, fromB).commands)
  }

  // ----- the commands about one option, counted -----

  function Number(bs: seq<bool>, on: bool): nat {
    if bs == [] then 0 else (if bs[0] == on then 1 else 0) + Number(bs[1..], on)
  }

  lemma {:induction false} NumberSnoc(bs: seq<bool>, b: bool, on: bool)
    ensures Number(bs + [b], on) == Number(bs, on) + (if b == on then 1 else 0)
  {
    if bs == [] {
      assert [] + [b] == [b] && [b][1..] == [];
    } else {
      assert (bs + [b])[1..] == bs[1..] + [b];
      NumberSnoc(bs[1..], b, on);
    }
  }

  lemma {:induction false} OnsCount(n: nat)
    ensures Number(Ons(n), true) == n && Number(Ons(n), false) == 0 && OnsFirst(Ons(n))
  {
    if n > 0 {
      assert Ons(n)[1..] == Ons(n - 1);
      OnsCount(n - 1);
    }
  }

  predicate OnsFirst(bs: seq<bool>) {
    bs != [] ==> OnsFirst(bs[1..]) && (bs[0] || Number(bs, true) == 0)
  }

  lemma {:induction false} OnsFirstSnoc(bs: seq<bool>, b: bool)
    requires OnsFirst(bs) && (b ==> Number(bs, false) == 0)
    ensures OnsFirst(bs + [b])
  {
    if bs == [] {
      assert [] + [b] == [b] && [b][1..] == [];
    } else {
      assert (bs + [b])[1..] == bs[1..] + [b];
      OnsFirstSnoc(bs[1..], b);
      NumberSnoc(bs, b, true);
    }
  }

  function LaneOf(bs: seq<bool>): Lane {
    Lane(Number(bs, true), Number(bs, false))
  }

  lemma LaneSnoc(bs: seq<bool>, b: bool)
    ensures LaneOf(bs + [b]) == if b then Lane(LaneOf(bs).ons + 1, LaneOf(bs).offs)
                                else Lane(LaneOf(bs).ons, LaneOf(bs).offs + 1)
  {
    NumberSnoc(bs, b, true);
    NumberSnoc(bs, b, false);
  }

  function LinkOf(s: System, fromA: seq<Key>, fromB: seq<Key>, key: Key): Link
    requires s.Valid()
  {
    Link(s.a.State(key), s.b.State(Mirror(key)), LaneOf(About(s.ab, key)), LaneOf(About(s.ba, Mirror(key))),
         s.a.Allowed(key), s.b.Allowed(Mirror(key)), Times(fromA, key), Times(fromB, Mirror(key)))
  }

  ghost predicate LinkedAt(s: System, fromA: seq<Key>, fromB: seq<Key>, k: Key)
    requires s.Valid()
  {
    LinkOf(s, fromA, fromB, k).Possible() && OnsFirst(About(s.ab, k)) && OnsFirst(About(s.ba, Mirror(k)))
  }

  ghost predicate Linked(s: System, fromA: seq<Key>, fromB: seq<Key>) {
    s.Valid() && forall k: Key :: LinkedAt(s, fromA, fromB, k)
  }

  lemma LinkFlip(s: System, fromA: seq<Key>, fromB: seq<Key>, k: Key)
    requires s.Valid()
    ensures LinkOf(s.Flip(), fromB, fromA, k) == LinkOf(s, fromA, fromB, Mirror(k)).Flip()
    ensures LinkedAt(s.Flip(), fromB, fromA, k) <==> LinkedAt(s, fromA, fromB, Mirror(k))
  {
    hide Link.Possible, OnsFirst, LaneOf, Times, About;
    assert Mirror(Mirror(k)) == k;
    WorkFlip(LinkOf(s, fromA, fromB, Mirror(k)));
  }

  lemma LinkedFlip(s: System, fromA: seq<Key>, fromB: seq<Key>)
    requires Linked(s, fromA, fromB)
    ensures Linked(s.Flip(), fromB, fromA)
  {
    hide LinkedAt;
    forall k: Key ensures LinkedAt(s.Flip(), fromB, fromA, k) {
      LinkFlip(s, fromA, fromB, k);
    }
  }

  // ----- the invariant holds at the start and in every step -----

  /** One end of the link at the start. */
  lemma EndStarts(t: Table, offers: seq<Key>, k: Key)
    requires Idle(t)
    ensures var s := Begin(t, offers);
            && s.table.State(k) == Offered(Times(offers, k)) && s.table.Allowed(k) == t.Allowed(k)
            && LaneOf(About(s.commands, k)) == Lane((Times(offers, k) + 1) / 2, 0) && OnsFirst(About(s.commands, k))
  {
    hide Begin, About, Times, Offered, Number, OnsFirst, Ons, Table.State, Table.Allowed;
    BeginOffers(t, offers, k);
    OnsCount((Times(offers, k) + 1) / 2);
  }

  lemma StartsAs(a: Table, b: Table, fromA: seq<Key>, fromB: seq<Key>, k: Key)
    requires Idle(a) && Idle(b)
    ensures LinkOf(Start(a, b, fromA, fromB), fromA, fromB, k)
              == TelnetLink.StartLink(a.Allowed(k), b.Allowed(Mirror(k)), Times(fromA, k), Times(fromB, Mirror(k)))
  {
    hide Begin, About, Times, Offered, LaneOf, OnsFirst, Table.State, Table.Allowed, Mirror;
    EndStarts(a, fromA, k);
    EndStarts(b, fromB, Mirror(k));
  }

  lemma StartLinkedAt(a: Table, b: Table, fromA: seq<Key>, fromB: seq<Key>, k: Key)
    requires Idle(a) && Idle(b)
    ensures LinkedAt(Start(a, b, fromA, fromB), fromA, fromB, k)
  {
    hide LinkOf, Link.Possible, TelnetLink.StartLink, Begin, About, Times, OnsFirst, Table.Allowed, Mirror;
    EndStarts(a, fromA, k);
    EndStarts(b, fromB, Mirror(k));
    StartsAs(a, b, fromA, fromB, k);
    StartPossible(a.Allowed(k), b.Allowed(Mirror(k)), Times(fromA, k), Times(fromB, Mirror(k)));
  }

  lemma StartLinked(a: Table, b: Table, fromA: seq<Key>, fromB: seq<Key>)
    requires Idle(a) && Idle(b)
    ensures Linked(Start(a, b, fromA, fromB), fromA, fromB)
  {
    hide LinkedAt;
    forall k: Key ensures LinkedAt(Start(a, b, fromA, fromB), fromA, fromB, k) {
      StartLinkedAt(a, b, fromA, fromB, k);
    }
  }

  lemma DeliverOther(s: System, fromA: seq<Key>, fromB: seq<Key>, key: Key)
    requires s.Valid() && s.ab != [] && key != SaidAbout(s.ab[0])
    ensures LinkOf(DeliverToB(s), fromA, fromB, key) == LinkOf(s, fromA, fromB, key)
    ensures About(DeliverToB(s).ab, key) == About(s.ab, key)
    ensures About(DeliverToB(s).ba, Mirror(key)) == About(s.ba, Mirror(key))
  {
    hide Table.With, Times, LaneOf;
    var c := s.ab[0];
    AboutAppend(s.ba, Receive(s.b, c).commands, Mirror(key));
    assert HeardAbout(c) == Mirror(SaidAbout(c));
    AboutOne(HeardAbout(c), true, Mirror(key));
    AboutOne(HeardAbout(c), false, Mirror(key));
    assert About(s.ab, key) == [] + About(s.ab[1..], key) == About(s.ab[1..], key);
    assert About(s.ba, Mirror(key)) + [] == About(s.ba, Mirror(key));
  }

  /** What b does with the command, as its end of the link. */
  lemma OwnReaction(s: System, key: Key, on: bool)
    requires s.Valid() && s.ab != [] && key == SaidAbout(s.ab[0]) && on == On(s.ab[0])
    ensures var y, s' := s.b.State(Mirror(key)), DeliverToB(s);
            var r := if on then ReceiveEnable(y, s.b.Allowed(Mirror(key))) else ReceiveDisable(y);
            && s'.a == s.a && s'.ab == s.ab[1..] && s'.b.Allowed(Mirror(key)) == s.b.Allowed(Mirror(key))
            && s'.b.State(Mirror(key)) == r.state
            && s'.ba == s.ba + if r.reply.Some? then [Say(Mirror(key), r.reply.value)] else []
  {
    hide Table.With, Table.State, Table.Allowed, ReceiveEnable, ReceiveDisable;
    assert HeardAbout(s.ab[0]) == Mirror(key);
  }

  /** The way back after a reply. */
  lemma ReplyLane(channel: seq<Command>, key: Key, reply: Option<bool>)
    requires OnsFirst(About(channel, key)) && (reply == Some(true) ==> LaneOf(About(channel, key)).offs == 0)
    ensures var bs := About(channel, key);
            var bs' := About(channel + if reply.Some? then [Say(key, reply.value)] else [], key);
            && OnsFirst(bs')
            && LaneOf(bs') == if reply.None? then LaneOf(bs)
                              else if reply.value then LaneOf(bs).(ons := LaneOf(bs).ons + 1)
                              else LaneOf(bs).(offs := LaneOf(bs).offs + 1)
  {
    hide Say, About, Number;
    var bs := About(channel, key);
    if reply.Some? {
      AboutAppend(channel, [Say(key, reply.value)], key);
      AboutOne(key, reply.value, key);
      LaneSnoc(bs, reply.value);
      OnsFirstSnoc(bs, reply.value);
    } else {
      assert channel + [] == channel;
    }
  }

  lemma DeliverOwn(s: System, fromA: seq<Key>, fromB: seq<Key>)
    requires s.Valid() && s.ab != [] && LinkedAt(s, fromA, fromB, SaidAbout(s.ab[0]))
    ensures var key := SaidAbout(s.ab[0]);
            var l, l' := LinkOf(s, fromA, fromB, key), LinkOf(DeliverToB(s), fromA, fromB, key);
            && l.xy.ons + l.xy.offs > 0 && l' == LinkReceive(l) && LinkedAt(DeliverToB(s), fromA, fromB, key)
  {
    hide Link.Possible, Times, LaneOf, About, OnsFirst, DeliverToB, Table.State, Table.Allowed, SaidAbout, Mirror,
         ReceiveEnable, ReceiveDisable, Say;
    var c := s.ab[0];
    var key := SaidAbout(c);
    var l := LinkOf(s, fromA, fromB, key);
    FirstAbout(s.ab, key);
    ReceivePossible(l);
    OwnReaction(s, key, On(c));
    ReplyLane(s.ba, Mirror(key), YReaction(l).reply);
  }

  /** A delivery changes the link of its key as TelnetLink says, and no other. */
  lemma DeliverLink(s: System, fromA: seq<Key>, fromB: seq<Key>, key: Key)
    requires s.Valid() && s.ab != [] && LinkedAt(s, fromA, fromB, key)
    ensures var l, l' := LinkOf(s, fromA, fromB, key), LinkOf(DeliverToB(s), fromA, fromB, key);
            if key == SaidAbout(s.ab[0]) then l.xy.ons + l.xy.offs > 0 && l' == LinkReceive(l) else l' == l
    ensures LinkedAt(DeliverToB(s), fromA, fromB, key)
  {
    hide Link.Possible, LinkOf, DeliverToB, OnsFirst, About;
    if key == SaidAbout(s.ab[0]) {
      DeliverOwn(s, fromA, fromB);
    } else {
      DeliverOther(s, fromA, fromB, key);
    }
  }

  lemma FirstAbout(channel: seq<Command>, key: Key)
    requires channel != [] && SaidAbout(channel[0]) == key && OnsFirst(About(channel, key))
    ensures var bs, rest := About(channel, key), About(channel[1..], key);
            && (On(channel[0]) <==> LaneOf(bs).ons > 0) && OnsFirst(rest)
            && LaneOf(bs) == if On(channel[0]) then LaneOf(rest).(ons := LaneOf(rest).ons + 1)
                             else LaneOf(rest).(offs := LaneOf(rest).offs + 1)
  {
    assert About(channel, key)[1..] == About(channel[1..], key);
  }

  lemma DeliverLinked(s: System, fromA: seq<Key>, fromB: seq<Key>)
    requires Linked(s, fromA, fromB) && s.ab != []
    ensures Linked(DeliverToB(s), fromA, fromB)
  {
    hide LinkedAt, LinkReceive, LinkOf, DeliverToB;
    forall k: Key ensures LinkedAt(DeliverToB(s), fromA, fromB, k) {
      DeliverLink(s, fromA, fromB, k);
    }
  }

  lemma StepLinked(s: System, s': System, fromA: seq<Key>, fromB: seq<Key>)
    requires Linked(s, fromA, fromB) && Step(s, s')
    ensures Linked(s', fromA, fromB)
  {
    hide LinkedAt;
    if s.ab != [] && s' == DeliverToB(s) {
      DeliverLinked(s, fromA, fromB);
    } else {
      LinkedFlip(s, fromA, fromB);
      DeliverLinked(s.Flip(), fromB, fromA);
      LinkedFlip(DeliverToB(s.Flip()), fromB, fromA);
    }
  }

  // ----- every run ends, and ends in agreement -----

  function WorkAt(s: System, fromA: seq<Key>, fromB: seq<Key>, key: Key): nat
    requires s.Valid()
  {
    LinkOf(s, fromA, fromB, key).Work()
  }

  /** The deliveries still to come at most, over the first n options. */
  function Total(s: System, fromA: seq<Key>, fromB: seq<Key>, n: nat): nat
    requires s.Valid() && n <= MAX_CLI_TELNET_OPTIONS
  {
    if n == 0 then 0
    else Total(s, fromA, fromB, n - 1)
         + WorkAt(s, fromA, fromB, Key(true, n - 1)) + WorkAt(s, fromA, fromB, Key(false, n - 1))
  }

  lemma {:induction false} TotalDrops(s: System, s': System, fromA: seq<Key>, fromB: seq<Key>, n: nat, key: Key)
    requires s.Valid() && s'.Valid() && n <= MAX_CLI_TELNET_OPTIONS
    requires forall k: Key :: k != key ==> WorkAt(s', fromA, fromB, k) == WorkAt(s, fromA, fromB, k)
    requires WorkAt(s', fromA, fromB, key) < WorkAt(s, fromA, fromB, key)
    ensures Total(s', fromA, fromB, n) <= Total(s, fromA, fromB, n)
    ensures key.option < n ==> Total(s', fromA, fromB, n) < Total(s, fromA, fromB, n)
  {
    hide WorkAt;
    if n > 0 {
      TotalDrops(s, s', fromA, fromB, n - 1, key);
    }
  }

  lemma {:induction false} TotalFlip(s: System, fromA: seq<Key>, fromB: seq<Key>, n: nat)
    requires s.Valid() && n <= MAX_CLI_TELNET_OPTIONS
    ensures Total(s.Flip(), fromB, fromA, n) == Total(s, fromA, fromB, n)
  {
    hide LinkOf, LinkedAt, Link.Work;
    if n > 0 {
      TotalFlip(s, fromA, fromB, n - 1);
      forall k: Key ensures WorkAt(s.Flip(), fromB, fromA, k) == WorkAt(s, fromA, fromB, Mirror(k)) {
        LinkFlip(s, fromA, fromB, k);
        WorkFlip(LinkOf(s, fromA, fromB, Mirror(k)));
      }
    }
  }

  function TimesUpTo(offers: seq<Key>, n: nat): nat
    requires n <= MAX_CLI_TELNET_OPTIONS
  {
    if n == 0 then 0
    else TimesUpTo(offers, n - 1) + Times(offers, Key(true, n - 1)) + Times(offers, Key(false, n - 1))
  }

  lemma {:induction false} TimesSnoc(init: seq<Key>, last: Key, n: nat)
    requires n <= MAX_CLI_TELNET_OPTIONS
    ensures TimesUpTo(init + [last], n) == TimesUpTo(init, n) + (if last.option < n then 1 else 0)
  {
    assert (init + [last])[..|init|] == init;
    if n > 0 {
      TimesSnoc(init, last, n - 1);
    }
  }

  lemma {:induction false} NoTimes(n: nat)
    requires n <= MAX_CLI_TELNET_OPTIONS
    ensures TimesUpTo([], n) == 0
  {
    if n > 0 {
      NoTimes(n - 1);
    }
  }

  lemma {:induction false} TimesLength(offers: seq<Key>)
    ensures TimesUpTo(offers, MAX_CLI_TELNET_OPTIONS) == |offers|
  {
    hide Times;
    if offers == [] {
      NoTimes(MAX_CLI_TELNET_OPTIONS);
    } else {
      var init, last := offers[..|offers| - 1], offers[|offers| - 1];
      TimesLength(init);
      TimesSnoc(init, last, MAX_CLI_TELNET_OPTIONS);
      assert offers == init + [last];
    }
  }

  lemma {:induction false} TotalStart(a: Table, b: Table, fromA: seq<Key>, fromB: seq<Key>, n: nat)
    requires Idle(a) && Idle(b) && n <= MAX_CLI_TELNET_OPTIONS
    ensures Total(Start(a, b, fromA, fromB), fromA, fromB, n) <= 2 * (TimesUpTo(fromA, n) + TimesUpTo(fromB, n))
  {
    hide LinkOf, LinkedAt, Times, Link.Work, Begin;
    if n > 0 {
      TotalStart(a, b, fromA, fromB, n - 1);
      forall k: Key
        ensures WorkAt(Start(a, b, fromA, fromB), fromA, fromB, k) <= 2 * (Times(fromA, k) + Times(fromB, Mirror(k)))
      {
        StartsAs(a, b, fromA, fromB, k);
        StartPossible(a.Allowed(k), b.Allowed(Mirror(k)), Times(fromA, k), Times(fromB, Mirror(k)));
      }
    }
  }

  function Pending(s: System, fromA: seq<Key>, fromB: seq<Key>): nat
    requires s.Valid()
  {
    Total(s, fromA, fromB, MAX_CLI_TELNET_OPTIONS)
  }

  lemma DeliverDecreases(s: System, fromA: seq<Key>, fromB: seq<Key>)
    requires Linked(s, fromA, fromB) && s.ab != []
    ensures Pending(DeliverToB(s), fromA, fromB) < Pending(s, fromA, fromB)
  {
    hide LinkOf, LinkReceive, Link.Work, Link.Possible, DeliverToB, Total, OnsFirst;
    var key := SaidAbout(s.ab[0]);
    forall k: Key | k != key ensures WorkAt(DeliverToB(s), fromA, fromB, k) == WorkAt(s, fromA, fromB, k) {
      DeliverLink(s, fromA, fromB, k);
    }
    DeliverLink(s, fromA, fromB, key);
    assert LinkedAt(s, fromA, fromB, key);
    ReceivePossible(LinkOf(s, fromA, fromB, key));
    TotalDrops(s, DeliverToB(s), fromA, fromB, MAX_CLI_TELNET_OPTIONS, key);
  }

  lemma StepDecreases(s: System, s': System, fromA: seq<Key>, fromB: seq<Key>)
    requires Linked(s, fromA, fromB) && Step(s, s')
    ensures s'.Valid() && Pending(s', fromA, fromB) < Pending(s, fromA, fromB)
  {
    hide LinkedAt, Total;
    if s.ab != [] && s' == DeliverToB(s) {
      DeliverDecreases(s, fromA, fromB);
    } else {
      LinkedFlip(s, fromA, fromB);
      DeliverDecreases(s.Flip(), fromB, fromA);
      TotalFlip(s, fromA, fromB, MAX_CLI_TELNET_OPTIONS);
      TotalFlip(s', fromA, fromB, MAX_CLI_TELNET_OPTIONS);
    }
  }

  ghost predicate IsRun(run: seq<System>, start: System) {
    && run != [] && run[0] == start
    && forall i :: 0 < i < |run| ==> Step(run[i - 1], run[i])
  }

  lemma {:induction false} RunLinked(run: seq<System>, start: System, fromA: seq<Key>, fromB: seq<Key>)
    requires IsRun(run, start) && Linked(start, fromA, fromB)
    ensures var last := run[|run| - 1];
            && Linked(last, fromA, fromB)
            && |run| - 1 + Pending(last, fromA, fromB) <= Pending(start, fromA, fromB)
    decreases |run|
  {
    hide LinkedAt, Total;
    if |run| > 1 {
      var init := run[..|run| - 1];
      RunLinked(init, start, fromA, fromB);
      assert Step(init[|init| - 1], run[|run| - 1]);
      StepLinked(init[|init| - 1], run[|run| - 1], fromA, fromB);
      StepDecreases(init[|init| - 1], run[|run| - 1], fromA, fromB);
    }
  }

  /** Two sessions that make any offers at the start, each option as often as they like: however their commands
      interleave, a run has at most twice as many deliveries as there were offers, it can go on as long as a command
      is under way, and once none is, both ends agree on every option. */
  lemma EveryRunAgrees(a: Table, b: Table, fromA: seq<Key>, fromB: seq<Key>, run: seq<System>)
    requires Idle(a) && Idle(b) && IsRun(run, Start(a, b, fromA, fromB))
    ensures |run| - 1 <= 2 * (|fromA| + |fromB|)
    ensures var last := run[|run| - 1];
            if last.ab == [] && last.ba == [] then
              forall k: Key :: last.a.Valid() && last.b.Valid()
                && last.a.State(k) == last.b.State(Mirror(k))
                && last.a.State(k) == (if AgreedOn(a.Allowed(k), b.Allowed(Mirror(k)),
                                                   Times(fromA, k), Times(fromB, Mirror(k))) then Enable else Disable)
            else exists next :: Step(last, next)
  {
    hide Total, LinkedAt, AgreedOn, Times;
    var start, last := Start(a, b, fromA, fromB), run[|run| - 1];
    StartLinked(a, b, fromA, fromB);
    RunLinked(run, start, fromA, fromB);
    TotalStart(a, b, fromA, fromB, MAX_CLI_TELNET_OPTIONS);
    TimesLength(fromA);
    TimesLength(fromB);
    RunAllowed(run, start);
    if last.ab == [] && last.ba == [] {
      forall k: Key
        ensures last.a.State(k) == last.b.State(Mirror(k))
        ensures last.a.State(k) == (if AgreedOn(a.Allowed(k), b.Allowed(Mirror(k)),
                                                Times(fromA, k), Times(fromB, Mirror(k))) then Enable else Disable)
      {
        BeginOffers(a, fromA, k);
        BeginOffers(b, fromB, Mirror(k));
        EmptyAgrees(last, fromA, fromB, k);
      }
    } else if last.ab != [] {
      assert Step(last, DeliverToB(last));
    } else {
      assert Step(last, DeliverToA(last));
    }
  }

  lemma EmptyAgrees(s: System, fromA: seq<Key>, fromB: seq<Key>, k: Key)
    requires Linked(s, fromA, fromB) && s.ab == [] && s.ba == []
    ensures s.a.State(k) == s.b.State(Mirror(k))
         == if AgreedOn(s.a.Allowed(k), s.b.Allowed(Mirror(k)), Times(fromA, k), Times(fromB, Mirror(k))) then Enable
            else Disable
  {
    hide Link.Possible, AgreedOn, Times;
    assert LinkedAt(s, fromA, fromB, k);
    SilentAgrees(LinkOf(s, fromA, fromB, k));
  }

  lemma {:induction false} RunAllowed(run: seq<System>, start: System)
    requires IsRun(run, start) && start.Valid()
    ensures var last := run[|run| - 1];
            && last.Valid()
            && forall k: Key :: last.a.Allowed(k) == start.a.Allowed(k) && last.b.Allowed(k) == start.b.Allowed(k)
    decreases |run|
  {
    if |run| > 1 {
      RunAllowed(run[..|run| - 1], start);
      assert Step(run[|run| - 2], run[|run| - 1]);
    }
  }

  // ----- a channel that an outsider wrote into -----

  function OnOff(key: Key): seq<Command> {
    [Say(key, true), Say(key, false)]
  }

  lemma OnOffCrosses(s: System, key: Key)
    requires s.Valid() && s.ab == OnOff(key) && s.ba == []
    requires s.b.State(Mirror(key)) == Disable && s.b.Allowed(Mirror(key))
    ensures DeliverToB(s).ab != []
    ensures DeliverToB(DeliverToB(s)) == System(s.a, s.b, [], OnOff(Mirror(key)))
  {
    var s1 := DeliverToB(s);
    assert s1.ab == [Say(key, false)] && s1.ba == [Say(Mirror(key), true)];
    var s2 := DeliverToB(s1);
    assert s2.ba == OnOff(Mirror(key));
    TableSame(s2.b, s.b);
  }

  /** Two sessions never put an on and an off for an option that both permit under way together. If an outsider does,
      the same four deliveries bring the system back to where it was, forever. */
  lemma OnOffNeverSettles(a: Table, b: Table, key: Key)
    requires Idle(a) && Idle(b) && a.Allowed(key) && b.Allowed(Mirror(key))
    ensures var s := System(a, b, OnOff(key), []);
            && DeliverToB(s).ab != []
            && var half := DeliverToB(DeliverToB(s));
            && half.ba != [] && DeliverToA(half).ba != []
            && DeliverToA(DeliverToA(half)) == s
  {
    hide Receive;
    var s := System(a, b, OnOff(key), []);
    OnOffCrosses(s, key);
    var half := DeliverToB(DeliverToB(s));
    OnOffCrosses(half.Flip(), Mirror(key));
    assert DeliverToB(half.Flip()) == DeliverToA(half).Flip();
    assert DeliverToB(DeliverToB(half.Flip())) == DeliverToA(DeliverToA(half)).Flip();
    assert Mirror(Mirror(key)) == key;
  }

  lemma TableSame(t: Table, u: Table)
    requires t.Valid() && u.Valid() && t.localOk == u.localOk && t.peerOk == u.peerOk
    requires forall k: Key :: t.State(k) == u.State(k)
    ensures t == u
  {
    forall i: byte ensures t.local[i] == u.local[i] && t.peer[i] == u.peer[i] {
      assert t.State(Key(true, i)) == u.State(Key(true, i)) && t.State(Key(false, i)) == u.State(Key(false, i));
    }
    assert t.local == u.local && t.peer == u.peer;
  }
}
