/** Option negotiation against the Q method, section 7 of RFC 1143, whose states the six states are; and what a session
    answers from its opening on, in the numbers of the options. */
module TelnetQMethod {
  import opened Bytes
  import opened TelnetLink
  import opened TelnetNegotiation
  import opened TelnetAgreement

  // ----- the Q method -----

  datatype Side = No | Yes | WantNo | WantYes

  /** opposite says that the opposite of what is wanted is queued behind the answer. */
  datatype Q = Q(side: Side, opposite: bool)

  /** A new state and the on or off that is sent, if any. */
  datatype Answer = Answer(q: Q, sent: Option<bool>)

  function AskOn(q: Q): Answer {
    match q.side
    case No => Answer(Q(WantYes, false), Some(true))
    case Yes => Answer(q, None)
    case WantNo => Answer(Q(WantNo, true), None)
    case WantYes => Answer(Q(WantYes, false), None)
  }

  function HearOn(q: Q, agrees: bool): Answer {
    match q.side
    case No => if agrees then Answer(Q(Yes, false), Some(true)) else Answer(q, Some(false))
    case Yes => Answer(q, None)
    case WantNo => if q.opposite then Answer(Q(Yes, false), None) else Answer(Q(No, false), None)
    case WantYes => if q.opposite then Answer(Q(WantNo, false), Some(false)) else Answer(Q(Yes, false), None)
  }

  function HearOff(q: Q): Answer {
    match q.side
    case No => Answer(q, None)
    case Yes => Answer(Q(No, false), Some(false))
    case WantNo => if q.opposite then Answer(Q(WantYes, false), Some(true)) else Answer(Q(No, false), None)
    case WantYes => Answer(Q(No, false), None)
  }

  /** What the states of the source are documented to mean. */
  function Meaning(s: OptionState): Q {
    match s
    case Disable => Q(No, false)
    case Enable => Q(Yes, false)
    case ExpectDisable => Q(WantNo, false)
    case ExpectEnable => Q(WantYes, false)
    case ExpectDisableRev => Q(WantNo, true)
    case ExpectEnableRev => Q(WantYes, true)
  }

  function Meant(r: Reaction): Answer {
    Answer(Meaning(r.state), r.reply)
  }

  /** A transition is that of the Q method, except for a second offer while the answer to a first is awaited, and where
      a request has been queued: there an offer withdraws to off, an on is followed by waiting for an off, and an off is
      answered. */
  lemma FollowsExactly(s: OptionState, allowed: bool)
    ensures Meant(SendEnable(s)) == AskOn(Meaning(s)) <==> s !in {ExpectEnable, ExpectDisableRev}
    ensures Meant(ReceiveEnable(s, allowed)) == HearOn(Meaning(s), allowed) <==> s != ExpectDisableRev
    ensures Meant(ReceiveDisable(s)) == HearOff(Meaning(s)) <==> s != ExpectEnableRev
    ensures s in {ExpectEnable, ExpectDisableRev} ==> Meant(SendEnable(s)) == Answer(Q(No, false), None)
    ensures s == ExpectDisableRev ==> Meant(ReceiveEnable(s, allowed)) == Answer(Q(WantNo, false), None)
    ensures s == ExpectEnableRev ==> Meant(ReceiveDisable(s)) == Answer(Q(No, false), Some(false))
  {
  }

  // ----- over a whole session -----

  /** One negotiation in the Q method: asked for or not, and then as the commands about it say. */
  function QAfter(asked: bool, agrees: bool, received: seq<Command>, k: Key): Q
    decreases |received|
  {
    if received == [] then (if asked then AskOn(Q(No, false)).q else Q(No, false))
    else
      var q, c := QAfter(asked, agrees, received[..|received| - 1], k), received[|received| - 1];
      if HeardAbout(c) != k then q
      else if c.verb == Do || c.verb == Will then HearOn(q, agrees).q else HearOff(q).q
  }

  function QReply(t: Table, offers: seq<Key>, received: seq<Command>, c: Command): Option<bool>
    requires t.Valid()
  {
    var k := HeardAbout(c);
    var q := QAfter(Times(offers, k) > 0, t.Allowed(k), received, k);
    if c.verb == Do || c.verb == Will then HearOn(q, t.Allowed(k)).sent else HearOff(q).sent
  }

  /** The offers of an option do not cancel out: there are none, or an odd number. */
  predicate OffersStand(offers: seq<Key>, k: Key) {
    Times(offers, k) == 0 || Times(offers, k) % 2 == 1
  }

  /** Where offers stand, a session is in the state of the Q method, whatever it receives. */
  lemma {:induction false} EveryRunFollows(t: Table, offers: seq<Key>, received: seq<Command>, k: Key)
    requires Idle(t) && OffersStand(offers, k)
    ensures var s := ReceiveAll(Begin(t, offers).table, received).table;
            Meaning(s.State(k)) == QAfter(Times(offers, k) > 0, t.Allowed(k), received, k)
    decreases |received|
  {
    hide SendEnable, ReceiveEnable, ReceiveDisable, Times, Table.State, Table.Allowed, Table.With;
    if received == [] {
      BeginOffers(t, offers, k);
    } else {
      var init, c := received[..|received| - 1], received[|received| - 1];
      EveryRunFollows(t, offers, init, k);
      AnyPeer(t, offers, init);
      var s := ReceiveAll(Begin(t, offers).table, init).table;
      assert s.State(k) in {Disable, Enable, ExpectEnable};
      FollowsExactly(s.State(k), s.Allowed(k));
    }
  }

  /** And only there. */
  lemma StandsExactly(t: Table, offers: seq<Key>, k: Key)
    requires Idle(t)
    ensures OffersStand(offers, k) <==>
              forall received :: Meaning(ReceiveAll(Begin(t, offers).table, received).table.State(k))
                                 == QAfter(Times(offers, k) > 0, t.Allowed(k), received, k)
  {
    hide Times, Table.State, Table.Allowed, Begin;
    if OffersStand(offers, k) {
      forall received ensures Meaning(ReceiveAll(Begin(t, offers).table, received).table.State(k))
                              == QAfter(Times(offers, k) > 0, t.Allowed(k), received, k)
      {
        EveryRunFollows(t, offers, received, k);
      }
    } else {
      BeginOffers(t, offers, k);
      assert ReceiveAll(Begin(t, offers).table, []).table == Begin(t, offers).table;
      assert Meaning(ReceiveAll(Begin(t, offers).table, []).table.State(k)) != QAfter(true, t.Allowed(k), [], k);
    }
  }

  /** A session whose offers stand answers every command as the Q method does. */
  lemma EveryReplyFollows(t: Table, offers: seq<Key>, received: seq<Command>, c: Command)
    requires Idle(t) && OffersStand(offers, HeardAbout(c))
    ensures var before, after := ReceiveAll(Begin(t, offers).table, received),
                                 ReceiveAll(Begin(t, offers).table, received + [c]);
            var reply := QReply(t, offers, received, c);
            after.commands == before.commands + if reply.Some? then [Say(HeardAbout(c), reply.value)] else []
  {
    hide SendEnable, ReceiveEnable, ReceiveDisable, Times, Table.State, Table.Allowed, Table.With, ReceiveAll;
    var k := HeardAbout(c);
    EveryRunFollows(t, offers, received, k);
    AnyPeer(t, offers, received);
    var s := ReceiveAll(Begin(t, offers).table, received).table;
    assert s.State(k) in {Disable, Enable, ExpectEnable};
    FollowsExactly(s.State(k), s.Allowed(k));
    ReceiveSnoc(Begin(t, offers).table, received, c);
  }

  // ----- the opening in numbers -----

  /** The permissions and states that a session opens with. */
  ghost predicate Opened(t: Table) {
    && t.Valid() && (forall k: Key :: t.Allowed(k) == OpensAllowed(k))
    && forall k: Key :: t.State(k) == if k in OPENING_OFFERS then ExpectEnable else Disable
  }

  /** Of our own options 0, 1, 3, 5, 6, 24 and 32 can be turned on, of the peer's 0, 1, 3, 5 and 6. The first command
      about an option turns it on or is refused; it is answered unless the option was offered in the opening, our own
      1, 3 and 5 and the peer's 3. */
  lemma FirstAnswer(t: Table, option: byte)
    requires Opened(t)
    ensures var s := Receive(t, Command(Do, option));
            && (s.table.State(Key(true, option)) == Enable <==> option in {0, 1, 3, 5, 6, 24, 32})
            && s.commands == if option in {1, 3, 5} then []
                             else [Command(if option in {0, 6, 24, 32} then Will else Wont, option)]
    ensures var s := Receive(t, Command(Will, option));
            && (s.table.State(Key(false, option)) == Enable <==> option in {0, 1, 3, 5, 6})
            && s.commands == if option == 3 then []
                             else [Command(if option in {0, 1, 5, 6} then Do else Dont, option)]
  {
    hide Table.State, Table.Allowed, Table.With;
  }

  /** Two sessions that face each other, both opened so, end with 1, 3 and 5 on in both directions and nothing else. */
  lemma OpenedAgree(a: Table, b: Table, run: seq<System>, k: Key)
    requires Idle(a) && Idle(b) && forall k: Key :: a.Allowed(k) == b.Allowed(k) == OpensAllowed(k)
    requires IsRun(run, Start(a, b, OPENING_OFFERS, OPENING_OFFERS))
    requires run[|run| - 1].ab == [] && run[|run| - 1].ba == []
    ensures var last := run[|run| - 1];
            && last.a.Valid() && last.b.Valid()
            && last.a.State(k) == last.b.State(Mirror(k)) == if k.option in {1, 3, 5} then Enable else Disable
  {
    hide Idle, IsRun, Table.State, Table.Allowed;
    EveryRunAgrees(a, b, OPENING_OFFERS, OPENING_OFFERS, run);
    OpeningTimes(k);
    OpeningTimes(Mirror(k));
  }

  lemma OpeningTimes(k: Key)
    ensures Times(OPENING_OFFERS, k) == if k in [Key(false, 3), Key(true, 1), Key(true, 5), Key(true, 3)] then 1 else 0
  {
    var o := OPENING_OFFERS;
    assert o[..3][..2] == o[..2] && o[..2][..1] == o[..1] && o[..1][..0] == [] && o[..4] == o;
    assert Times(o[..1], k) == Times([], k) + if k == o[0] then 1 else 0;
    assert Times(o[..2], k) == Times(o[..1], k) + if k == o[1] then 1 else 0;
    assert Times(o[..3], k) == Times(o[..2], k) + if k == o[2] then 1 else 0;
  }
}
