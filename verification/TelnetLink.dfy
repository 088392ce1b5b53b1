/** One option between two sessions: the states of both ends and the commands under way, counted. */
module TelnetLink {
  import opened Bytes
  import opened TelnetNegotiation

  /** Commands under way in one direction: the ons come first. */
  datatype Lane = Lane(ons: nat, offs: nat)

  /** Whether the option ends up on. Every second offer takes the one before back, so an end still offers after an odd
      number of them; where both ends permit, one offer is enough even if it was taken back. */
  predicate AgreedOn(xOk: bool, yOk: bool, xOffers: nat, yOffers: nat) {
    var xOdd, yOdd := xOffers % 2 == 1, yOffers % 2 == 1;
    (xOdd && yOdd) || (xOdd && yOk) || (yOdd && xOk) || (xOk && yOk && xOffers + yOffers > 0)
  }

  /** Where each end offers at most once: both offered, or one offered what the other permits. */
  lemma AgreedOnce(xOk: bool, yOk: bool, xOffers: nat, yOffers: nat)
    requires xOffers <= 1 && yOffers <= 1
    ensures AgreedOn(xOk, yOk, xOffers, yOffers) <==>
              (xOffers == 1 && (yOffers == 1 || yOk)) || (yOffers == 1 && xOk)
  {
  }

  /** x and y are the two ends; xOffers and yOffers count how often each offered the option at the start. */
  datatype Link = Link(x: OptionState, y: OptionState, xy: Lane, yx: Lane, xOk: bool, yOk: bool,
                       xOffers: nat, yOffers: nat)
  {
    function Flip(): Link {
      Link(y, x, yx, xy, yOk, xOk, yOffers, xOffers)
    }

    function XOdd(): bool {
      xOffers % 2 == 1
    }

    function YOdd(): bool {
      yOffers % 2 == 1
    }

    predicate Agrees() {
      AgreedOn(xOk, yOk, xOffers, yOffers)
    }

    predicate Silent() {
      xy == yx == Lane(0, 0)
    }

    predicate NoOffs() {
      xy.offs == yx.offs == 0
    }

    /** Both ends permit: whoever is not on yet has an on coming, or is asked by no one. */
    predicate BothPermit() {
      && xOk && yOk && NoOffs()
      && (x == ExpectEnable ==> xOffers > 0) && (y == ExpectEnable ==> yOffers > 0)
      && (xOffers > 0 ==> y == Enable || xy.ons > 0)
      && (yOffers > 0 ==> x == Enable || yx.ons > 0)
      && (y == Enable && x != Enable ==> yx.ons > 0)
      && (x == Enable && y != Enable ==> xy.ons > 0)
    }

    /** Only x permits, and y still offers. */
    predicate XPermitsOffer() {
      && xOk && !yOk && YOdd() && NoOffs() && y != Disable
      && (x != Enable ==> yx.ons > 0)
      && (y == ExpectEnable ==> xy.ons > 0 || x == Disable)
    }

    /** Only x permits, and y takes no offer: y refuses every on. */
    predicate XPermitsAlone() {
      && xOk && !yOk && !YOdd() && y == Disable
      && (x != Disable ==> xy.ons > 0 || yx.offs > 0)
      && (xy.offs > 0 ==> yx.ons == 0)
    }

    predicate NeitherBothOffer() {
      && !xOk && !yOk && XOdd() && YOdd() && NoOffs() && x != Disable && y != Disable
      && (x == ExpectEnable ==> yx.ons > 0) && (y == ExpectEnable ==> xy.ons > 0)
    }

    predicate NeitherXOffers() {
      && !xOk && !yOk && XOdd() && !YOdd() && y == Disable
      && (x != Disable ==> xy.ons > 0 || yx.offs > 0)
      && (x == Disable ==> yx.ons == 0) && (xy.offs > 0 ==> x == Disable)
    }

    predicate NeitherOffers() {
      !xOk && !yOk && !XOdd() && !YOdd() && x == Disable && y == Disable
    }

    predicate Untouched() {
      x == Disable && y == Disable && Silent()
    }

    predicate Possible() {
      && {x, y} <= {Disable, Enable, ExpectEnable}
      && (if xOffers + yOffers == 0 then Untouched()
          else (|| BothPermit() || NeitherBothOffer() || NeitherOffers()
                || XPermitsOffer() || XPermitsAlone() || NeitherXOffers()
                || Flip().XPermitsOffer() || Flip().XPermitsAlone() || Flip().NeitherXOffers()))
    }

    /** How many deliveries are still to come at most where y refuses every on. */
    function RefusedWork(): nat {
      2 * xy.ons + xy.offs + yx.ons + yx.offs
      + (if xOk && x == Disable && yx.ons > 0 then 2 else 0) + (if x == Enable || yx.ons > 0 then 1 else 0)
    }

    /** How many deliveries are still to come at most. */
    function Work(): nat {
      if xOffers + yOffers == 0 then 0
      else if xOk && yOk then
        xy.ons + yx.ons + (if x == Disable then 1 else 0) + (if y == Disable then 1 else 0)
      else if xOk then
        if YOdd() then xy.ons + yx.ons + (if x == Disable then 1 else 0) else RefusedWork()
      else if yOk then
        if XOdd() then xy.ons + yx.ons + (if y == Disable then 1 else 0) else Flip().RefusedWork()
      else if XOdd() && YOdd() then xy.ons + yx.ons
      else if XOdd() then RefusedWork()
      else if YOdd() then Flip().RefusedWork()
      else 2 * xy.ons + 2 * yx.ons + xy.offs + yx.offs
    }
  }

  /** What n offers leave of an option that was off. */
  function Offered(n: nat): OptionState {
    if n % 2 == 1 then ExpectEnable else Disable
  }

  /** Each offer that is not taken back at once goes out. */
  function StartLink(xOk: bool, yOk: bool, xOffers: nat, yOffers: nat): Link {
    Link(Offered(xOffers), Offered(yOffers), Lane((xOffers + 1) / 2, 0), Lane((yOffers + 1) / 2, 0), xOk, yOk,
         xOffers, yOffers)
  }

  lemma StartPossible(xOk: bool, yOk: bool, xOffers: nat, yOffers: nat)
    ensures StartLink(xOk, yOk, xOffers, yOffers).Possible()
    ensures StartLink(xOk, yOk, xOffers, yOffers).Work() <= 2 * (xOffers + yOffers)
  {
  }

  function YReaction(l: Link): Reaction
    requires l.xy.ons + l.xy.offs > 0
  {
    if l.xy.ons > 0 then ReceiveEnable(l.y, l.yOk) else ReceiveDisable(l.y)
  }

  /** The link after y has received the first command under way to it. */
  function LinkReceive(l: Link): Link
    requires l.xy.ons + l.xy.offs > 0
  {
    var r := YReaction(l);
    l.(y := r.state,
       xy := if l.xy.ons > 0 then l.xy.(ons := l.xy.ons - 1) else l.xy.(offs := l.xy.offs - 1),
       yx := if r.reply.None? then l.yx
             else if r.reply.value then l.yx.(ons := l.yx.ons + 1)
             else l.yx.(offs := l.yx.offs + 1))
  }

  /** Every delivery keeps the link possible and lowers what is still to come; an end that answers with an on has no
      off under way, so the ons stay in front. */
  lemma ReceivePossible(l: Link)
    requires l.Possible() && l.xy.ons + l.xy.offs > 0
    ensures LinkReceive(l).Possible() && LinkReceive(l).Work() < l.Work()
    ensures YReaction(l).reply == Some(true) ==> l.yx.offs == 0
  {
  }

  /** Once nothing is under way both ends agree. */
  lemma SilentAgrees(l: Link)
    requires l.Possible() && l.Silent()
    ensures l.x == l.y == if l.Agrees() then Enable else Disable
  {
  }

  lemma WorkFlip(l: Link)
    ensures l.Flip().Work() == l.Work() && l.Flip().Flip() == l && (l.Flip().Possible() <==> l.Possible())
  {
  }
}
