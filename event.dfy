/** An event: a name, the announced ticket total, the sold counter and the tickets,
    with the three scans that sell, redeem and refund them. */
module Events {
  import opened Exceptions
  import opened Tickets

  /** The value of an event. */
  datatype EventState = EventState(
    eventName: string,
    totalNumTickets: int,
    ticketsSold: int,
    tickets: seq<TicketState>)

  /** Number of tickets marked sold. */
  function SoldCount(s: seq<TicketState>): (n: nat)
    ensures n <= |s|
  {
    if s == [] then 0 else (if s[0].sold then 1 else 0) + SoldCount(s[1..])
  }

  /** The invariant the counter is meant to keep: it equals the number of sold tickets. */
  predicate Consistent(e: EventState) {
    e.ticketsSold == SoldCount(e.tickets)
  }

  /** Index of the first ticket not yet sold, or |s| if every ticket is sold. */
  function FirstUnsold(s: seq<TicketState>): (k: nat)
    ensures k <= |s|
    ensures forall j :: 0 <= j < k ==> s[j].sold
    ensures k < |s| ==> !s[k].sold
  {
    if s == [] then 0
    else if !s[0].sold then 0
    else 1 + FirstUnsold(s[1..])
  }

  /** `getNextUnsoldTicket`: the index of the ticket sold (or NoTicketsAvailable) and the event afterwards. */
  function NextUnsold(e: EventState): (r: (Result<nat>, EventState))
    ensures r.0.Success? <==> exists j :: 0 <= j < |e.tickets| && !e.tickets[j].sold
    ensures r.0.Failure? ==> r.0.error == NoTicketsAvailable && r.1 == e
    ensures r.0.Success? ==>
      var k := r.0.value;
      k < |e.tickets| && !e.tickets[k].sold && (forall j :: 0 <= j < k ==> e.tickets[j].sold) &&
      r.1.eventName == e.eventName && r.1.totalNumTickets == e.totalNumTickets &&
      r.1.ticketsSold == e.ticketsSold + 1 &&
      |r.1.tickets| == |e.tickets| && r.1.tickets[k] == e.tickets[k].(sold := true) &&
      forall j :: 0 <= j < |e.tickets| && j != k ==> r.1.tickets[j] == e.tickets[j]
  {
    var k := FirstUnsold(e.tickets);
    if k == |e.tickets| then (Failure(NoTicketsAvailable), e)
    else (Success(k), e.(ticketsSold := e.ticketsSold + 1, tickets := e.tickets[k := e.tickets[k].(sold := true)]))
  }

  /** `verifyTicket`: true when some unused ticket carries the hash; only the first such
      ticket is spent, and the counters stay as they were. */
  function Verify(e: EventState, hash: seq<bv8>): (r: (bool, EventState))
    ensures r.0 <==> exists j :: 0 <= j < |e.tickets| && !e.tickets[j].used && e.tickets[j].hash == hash
    ensures !r.0 ==> r.1 == e
    ensures r.1.eventName == e.eventName && r.1.totalNumTickets == e.totalNumTickets
    ensures r.1.ticketsSold == e.ticketsSold
    ensures r.0 ==> r.1.tickets == e.tickets[FirstValid(e.tickets, hash) := e.tickets[FirstValid(e.tickets, hash)].(used := true)]
  {
    var (ok, tickets) := ValidateFirst(e.tickets, hash);
    (ok, e.(tickets := tickets))
  }

  /** `refundTicket` as written: the first ticket that validates is reset to unsold and unused
      and the counter is decremented, whether or not that ticket had been sold. */
  function Refund(e: EventState, hash: seq<bv8>): (r: (bool, EventState))
    ensures r.0 <==> exists j :: 0 <= j < |e.tickets| && !e.tickets[j].used && e.tickets[j].hash == hash
    ensures !r.0 ==> r.1 == e
    ensures r.1.eventName == e.eventName && r.1.totalNumTickets == e.totalNumTickets
    ensures r.0 ==>
      var k := FirstValid(e.tickets, hash);
      r.1.ticketsSold == e.ticketsSold - 1 &&
      r.1.tickets == e.tickets[k := TicketState(hash, false, false)]
  {
    var k := FirstValid(e.tickets, hash);
    if k == |e.tickets| then (false, e)
    else (true, e.(ticketsSold := e.ticketsSold - 1, tickets := e.tickets[k := TicketState(e.tickets[k].hash, false, false)]))
  }

  /** Index of the first ticket that is sold and would validate, or |s| if none. */
  function FirstRefundable(s: seq<TicketState>, hash: seq<bv8>): (k: nat)
    ensures k <= |s|
    ensures forall j :: 0 <= j < k ==> !(s[j].sold && Validate(s[j], hash).0)
    ensures k < |s| ==> s[k].sold && Validate(s[k], hash).0
  {
    if s == [] then 0
    else if s[0].sold && Validate(s[0], hash).0 then 0
    else 1 + FirstRefundable(s[1..], hash)
  }

  /** Refund with the guard `refundTicket` lacks: only a sold, unused ticket carrying
      the hash is refunded; unsold tickets are skipped without being validated. */
  function RefundSold(e: EventState, hash: seq<bv8>): (r: (bool, EventState))
    ensures r.0 <==> exists j :: 0 <= j < |e.tickets| && e.tickets[j].sold && !e.tickets[j].used && e.tickets[j].hash == hash
    ensures !r.0 ==> r.1 == e
    ensures r.1.eventName == e.eventName && r.1.totalNumTickets == e.totalNumTickets
    ensures r.0 ==>
      var k := FirstRefundable(e.tickets, hash);
      r.1.ticketsSold == e.ticketsSold - 1 &&
      r.1.tickets == e.tickets[k := TicketState(hash, false, false)]
  {
    var k := FirstRefundable(e.tickets, hash);
    if k == |e.tickets| then (false, e)
    else (true, e.(ticketsSold := e.ticketsSold - 1, tickets := e.tickets[k := TicketState(e.tickets[k].hash, false, false)]))
  }

  // ----- The sold counter -----

  /** Replacing one ticket changes the number of sold tickets by the change of that ticket's flag. */
  lemma {:induction false} SoldCountUpdate(s: seq<TicketState>, k: nat, t: TicketState)
    requires k < |s|
    ensures SoldCount(s[k := t]) == SoldCount(s) - (if s[k].sold then 1 else 0) + (if t.sold then 1 else 0)
  {
    if k > 0 {
      assert s[k := t][1..] == s[1..][k - 1 := t];
      SoldCountUpdate(s[1..], k - 1, t);
    } else {
      assert s[k := t][1..] == s[1..];
    }
  }

  /** When no ticket is left unsold, every ticket counts as sold. */
  lemma {:induction false} AllSoldCount(s: seq<TicketState>)
    requires forall j :: 0 <= j < |s| ==> s[j].sold
    ensures SoldCount(s) == |s|
  {
    if s != [] {
      AllSoldCount(s[1..]);
    }
  }

  /** A batch in which nothing is sold has a sold count of zero. */
  lemma {:induction false} NoneSoldCount(s: seq<TicketState>)
    requires forall j :: 0 <= j < |s| ==> !s[j].sold
    ensures SoldCount(s) == 0
  {
    if s != [] {
      NoneSoldCount(s[1..]);
    }
  }

  /** `getNextUnsoldTicket` keeps the counter equal to the number of sold tickets. */
  lemma NextUnsoldKeepsCount(e: EventState)
    requires Consistent(e)
    ensures Consistent(NextUnsold(e).1)
  {
    var (r, e') := NextUnsold(e);
    if r.Success? {
      SoldCountUpdate(e.tickets, r.value, e.tickets[r.value].(sold := true));
    }
  }

  /** Once `getNextUnsoldTicket` reports NoTicketsAvailable, the counter has reached the number of tickets. */
  lemma NoTicketsMeansAllSold(e: EventState)
    requires Consistent(e)
    requires NextUnsold(e).0.Failure?
    ensures e.ticketsSold == |e.tickets|
  {
    AllSoldCount(e.tickets);
  }

  /** `verifyTicket` leaves every sold flag, hence the number of sold tickets, as it was. */
  lemma VerifyKeepsCount(e: EventState, hash: seq<bv8>)
    ensures forall j :: 0 <= j < |e.tickets| ==> Verify(e, hash).1.tickets[j].sold == e.tickets[j].sold
    ensures SoldCount(Verify(e, hash).1.tickets) == SoldCount(e.tickets)
    ensures Consistent(e) ==> Consistent(Verify(e, hash).1)
  {
    var (ok, e') := Verify(e, hash);
    if ok {
      var k := FirstValid(e.tickets, hash);
      SoldCountUpdate(e.tickets, k, e.tickets[k].(used := true));
    }
  }

  /** A successful `refundTicket` keeps the counter consistent exactly when the refunded
      ticket had been sold; the source has no guard for the other case. */
  lemma RefundKeepsCountIffSold(e: EventState, hash: seq<bv8>)
    requires Consistent(e)
    requires Refund(e, hash).0
    ensures Consistent(Refund(e, hash).1) <==> e.tickets[FirstValid(e.tickets, hash)].sold
  {
    var k := FirstValid(e.tickets, hash);
    SoldCountUpdate(e.tickets, k, TicketState(hash, false, false));
  }

  /** Refunding the hash of a ticket that was never sold succeeds and leaves the counter one
      below the number of sold tickets; in an event with nothing sold it goes to -1. */
  lemma RefundOfUnsoldTicket(e: EventState, k: nat)
    requires Consistent(e)
    requires k < |e.tickets| && !e.tickets[k].sold && !e.tickets[k].used
    requires forall j :: 0 <= j < k ==> e.tickets[j].hash != e.tickets[k].hash
    ensures Refund(e, e.tickets[k].hash).0
    ensures Refund(e, e.tickets[k].hash).1.ticketsSold == SoldCount(Refund(e, e.tickets[k].hash).1.tickets) - 1
    ensures e.ticketsSold == 0 ==> Refund(e, e.tickets[k].hash).1.ticketsSold == -1
  {
    var hash := e.tickets[k].hash;
    assert FirstValid(e.tickets, hash) == k;
    SoldCountUpdate(e.tickets, k, TicketState(hash, false, false));
  }

  /** The guarded refund keeps the counter equal to the number of sold tickets. */
  lemma RefundSoldKeepsCount(e: EventState, hash: seq<bv8>)
    requires Consistent(e)
    ensures Consistent(RefundSold(e, hash).1)
  {
    var (ok, e') := RefundSold(e, hash);
    if ok {
      var k := FirstRefundable(e.tickets, hash);
      SoldCountUpdate(e.tickets, k, TicketState(hash, false, false));
    }
  }

  /** The counter never exceeds the number of sold tickets, whichever operations run: so it
      stays within the array and `ticketsSold++` cannot overflow. */
  lemma CounterBoundedBySold(e: EventState, hash: seq<bv8>)
    requires e.ticketsSold <= SoldCount(e.tickets)
    ensures NextUnsold(e).1.ticketsSold <= SoldCount(NextUnsold(e).1.tickets)
    ensures Verify(e, hash).1.ticketsSold <= SoldCount(Verify(e, hash).1.tickets)
    ensures Refund(e, hash).1.ticketsSold <= SoldCount(Refund(e, hash).1.tickets)
  {
    var (r, e1) := NextUnsold(e);
    if r.Success? {
      SoldCountUpdate(e.tickets, r.value, e.tickets[r.value].(sold := true));
    }
    VerifyKeepsCount(e, hash);
    var (ok, e3) := Refund(e, hash);
    if ok {
      var k := FirstValid(e.tickets, hash);
      SoldCountUpdate(e.tickets, k, TicketState(hash, false, false));
    }
  }

  // ----- Redemption -----

  /** With distinct hashes, `verifyTicket` called twice with the same hash answers true then false. */
  lemma VerifyAtMostOnce(e: EventState, hash: seq<bv8>)
    requires DistinctHashes(e.tickets)
    requires Verify(e, hash).0
    ensures !Verify(Verify(e, hash).1, hash).0
  {
    SearchAtMostOnce(e.tickets, hash);
  }

  /** Whatever the hashes, a second success with the same hash spends a later ticket. */
  lemma VerifyAgainGoesFurther(e: EventState, hash: seq<bv8>)
    requires Verify(e, hash).0
    ensures FirstValid(Verify(e, hash).1.tickets, hash) > FirstValid(e.tickets, hash)
  {
    SecondSearchGoesFurther(e.tickets, hash);
  }

  /** `verifyTicket` does not look at the sold flag: an unsold ticket's hash is accepted, which
      leaves a ticket used but not sold. */
  lemma VerifyAcceptsUnsoldTicket(e: EventState, k: nat)
    requires k < |e.tickets| && !e.tickets[k].sold && !e.tickets[k].used
    requires forall j :: 0 <= j < k ==> e.tickets[j].hash != e.tickets[k].hash
    ensures Verify(e, e.tickets[k].hash).0
    ensures Verify(e, e.tickets[k].hash).1.tickets[k].used && !Verify(e, e.tickets[k].hash).1.tickets[k].sold
  {
    assert FirstValid(e.tickets, e.tickets[k].hash) == k;
  }

  // ----- Sale and refund together -----

  /** Selling the next ticket and refunding it by its hash restores the event exactly, so the
      next sale hands out the refunded ticket again. */
  lemma SellThenRefundRestores(e: EventState)
    requires NextUnsold(e).0.Success?
    requires DistinctHashes(e.tickets)
    requires !e.tickets[NextUnsold(e).0.value].used
    ensures var k := NextUnsold(e).0.value;
      Refund(NextUnsold(e).1, e.tickets[k].hash) == (true, e)
    ensures var after := Refund(NextUnsold(e).1, e.tickets[NextUnsold(e).0.value].hash).1;
      NextUnsold(after).0 == NextUnsold(e).0
  {
    var k := NextUnsold(e).0.value;
    var sold := NextUnsold(e).1;
    assert FirstValid(sold.tickets, e.tickets[k].hash) == k by {
      assert Validate(sold.tickets[k], e.tickets[k].hash).0;
    }
    assert sold.tickets[k := TicketState(e.tickets[k].hash, false, false)] == e.tickets;
  }

  /** From a fresh event, the ticket sold first is admitted once and then refused. */
  lemma FreshSellRedeemTwice(e: EventState)
    requires Fresh(e) && |e.tickets| > 0
    requires DistinctHashes(e.tickets)
    ensures NextUnsold(e).0 == Success(0)
    ensures var e1 := NextUnsold(e).1;
      Verify(e1, e.tickets[0].hash).0 && !Verify(Verify(e1, e.tickets[0].hash).1, e.tickets[0].hash).0
  {
    var e1 := NextUnsold(e).1;
    assert e1.tickets[0].hash == e.tickets[0].hash && !e1.tickets[0].used;
    assert DistinctHashes(e1.tickets);
    VerifyAtMostOnce(e1, e.tickets[0].hash);
  }

  /** The event as the constructor leaves it over a batch in which nothing is sold or used. */
  ghost predicate Fresh(e: EventState) {
    e.ticketsSold == 0 && forall j :: 0 <= j < |e.tickets| ==> !e.tickets[j].sold && !e.tickets[j].used
  }

  /** From a fresh event, selling one ticket and refunding it brings the counter back to 0
      and gives the first ticket out again. */
  lemma FreshSellRefund(e: EventState)
    requires Fresh(e) && |e.tickets| > 0
    requires DistinctHashes(e.tickets)
    ensures NextUnsold(e).0 == Success(0)
    ensures NextUnsold(e).1.ticketsSold == 1
    ensures Refund(NextUnsold(e).1, e.tickets[0].hash) == (true, e)
    ensures Refund(NextUnsold(e).1, e.tickets[0].hash).1.ticketsSold == 0
  {
    SellThenRefundRestores(e);
  }
  // ----- The Java object -----

  class Event {
    var eventName: string
    var totalNumTickets: int
    var ticketsSold: int
    var tickets: array<Ticket?>
    ghost var Repr: set<object>   // the event and its ticket objects; the array is never written

    ghost predicate Valid()
      reads this, Repr, tickets
    {
      this in Repr && tickets !in Repr && TicketArray(tickets) &&
      forall i :: 0 <= i < tickets.Length ==> tickets[i] in Repr
    }

    /** The event's value: its fields and the states of its tickets, in array order. */
    ghost function Abs(): EventState
      requires Valid()
      reads this, Repr, tickets
    {
      EventState(eventName, totalNumTickets, ticketsSold, StatesOf(tickets))
    }

    /** Stores the name, the total and the array itself (not a copy); nothing is sold yet. */
    constructor(eventNameIn: string, totalNumTicketsIn: int, ticketsIn: array<Ticket?>)
      ensures eventName == eventNameIn && totalNumTickets == totalNumTicketsIn
      ensures tickets == ticketsIn && ticketsSold == 0
      ensures Repr == {this} + set i | 0 <= i < ticketsIn.Length && ticketsIn[i] != null :: ticketsIn[i] as object
      ensures TicketArray(ticketsIn) ==> Valid() && Abs() == EventState(eventNameIn, totalNumTicketsIn, 0, StatesOf(ticketsIn))
    {
      eventName := eventNameIn;
      totalNumTickets := totalNumTicketsIn;
      tickets := ticketsIn;
      ticketsSold := 0;
      Repr := {this} + set i | 0 <= i < ticketsIn.Length && ticketsIn[i] != null :: ticketsIn[i] as object;
    }

    /** The announced number of tickets, as given to the constructor. */
    function GetTotalNumTickets(): (n: int)
      reads this, Repr, tickets
      ensures Valid() ==> n == Abs().totalNumTickets
    {
      totalNumTickets
    }

    /** Sells the first unsold ticket, or reports NoTicketsAvailable and changes nothing. */
    method GetNextUnsoldTicket() returns (r: Result<Ticket>)
      requires Valid()
      modifies Repr
      ensures tickets == old(tickets) && Repr == old(Repr) && Valid()
      ensures Abs() == NextUnsold(old(Abs())).1
      ensures match NextUnsold(old(Abs())).0
        case Success(k) => r.Success? && r.value == tickets[k]
        case Failure(err) => r == Failure(err)
    {
      ghost var pre := Abs();
      var i := 0;
      while i < tickets.Length
        invariant unchanged(this) && Valid()
        invariant 0 <= i <= tickets.Length == |pre.tickets|
        invariant forall j :: 0 <= j < i ==> pre.tickets[j].sold
        invariant forall j :: 0 <= j < tickets.Length ==> tickets[j].State() == pre.tickets[j]
      {
        var tic := tickets[i];
        var isSold := tic.IsSold();
        if !isSold {
          tic.SetSold(true);
          ticketsSold := ticketsSold + 1;
          assert FirstUnsold(pre.tickets) == i;
          StatesAfterSlotChange(tickets, pre.tickets, i, pre.tickets[i].(sold := true));
          return Success(tic);
        }
        i := i + 1;
      }
      assert StatesOf(tickets) == pre.tickets;
      return Failure(NoTicketsAvailable);
    }

    /** Redeems the first ticket that validates; false, and no change, when none does. */
    method VerifyTicket(hash: seq<bv8>) returns (valid: bool)
      requires Valid()
      modifies Repr - {this}
      ensures tickets == old(tickets) && Repr == old(Repr) && Valid()
      ensures (valid, Abs()) == Verify(old(Abs()), hash)
    {
      ghost var pre := Abs();
      var i := 0;
      while i < tickets.Length
        invariant unchanged(this) && Valid()
        invariant 0 <= i <= tickets.Length == |pre.tickets|
        invariant forall j :: 0 <= j < i ==> !Validate(pre.tickets[j], hash).0
        invariant forall j :: 0 <= j < tickets.Length ==> tickets[j].State() == pre.tickets[j]
      {
        var tic := tickets[i];
        var ok := tic.ValidateTicket(hash);
        if ok {
          assert FirstValid(pre.tickets, hash) == i;
          StatesAfterSlotChange(tickets, pre.tickets, i, pre.tickets[i].(used := true));
          return true;
        }
        i := i + 1;
      }
      assert StatesOf(tickets) == pre.tickets;
      return false;
    }

    /** Refunds the first ticket that validates and decrements the counter, with no check
        that the ticket had been sold; false, and no change, when none validates. */
    method RefundTicket(hash: seq<bv8>) returns (refunded: bool)
      requires Valid()
      modifies Repr
      ensures tickets == old(tickets) && Repr == old(Repr) && Valid()
      ensures (refunded, Abs()) == Refund(old(Abs()), hash)
    {
      ghost var pre := Abs();
      var i := 0;
      while i < tickets.Length
        invariant unchanged(this) && Valid()
        invariant 0 <= i <= tickets.Length == |pre.tickets|
        invariant forall j :: 0 <= j < i ==> !Validate(pre.tickets[j], hash).0
        invariant forall j :: 0 <= j < tickets.Length ==> tickets[j].State() == pre.tickets[j]
      {
        var tic := tickets[i];
        var ok := tic.ValidateTicket(hash);
        if ok {
          tic.Refund();
          ticketsSold := ticketsSold - 1;
          assert FirstValid(pre.tickets, hash) == i;
          StatesAfterSlotChange(tickets, pre.tickets, i, TicketState(pre.tickets[i].hash, false, false));
          assert Abs() == Refund(pre, hash).1;
          return true;
        }
        i := i + 1;
      }
      assert StatesOf(tickets) == pre.tickets;
      return false;
    }

    /** `refundTicket` with the missing guard: unsold tickets are passed over without being
        validated, so only a sold ticket is refunded and the counter stays consistent. */
    method RefundSoldTicket(hash: seq<bv8>) returns (refunded: bool)
      requires Valid()
      modifies Repr
      ensures tickets == old(tickets) && Repr == old(Repr) && Valid()
      ensures (refunded, Abs()) == RefundSold(old(Abs()), hash)
    {
      ghost var pre := Abs();
      var i := 0;
      while i < tickets.Length
        invariant unchanged(this) && Valid()
        invariant 0 <= i <= tickets.Length == |pre.tickets|
        invariant forall j :: 0 <= j < i ==> !(pre.tickets[j].sold && Validate(pre.tickets[j], hash).0)
        invariant forall j :: 0 <= j < tickets.Length ==> tickets[j].State() == pre.tickets[j]
      {
        var tic := tickets[i];
        var isSold := tic.IsSold();
        if isSold {
          var ok := tic.ValidateTicket(hash);
          if ok {
            tic.Refund();
            ticketsSold := ticketsSold - 1;
            assert FirstRefundable(pre.tickets, hash) == i;
            StatesAfterSlotChange(tickets, pre.tickets, i, TicketState(pre.tickets[i].hash, false, false));
            assert Abs() == RefundSold(pre, hash).1;
            return true;
          }
        }
        i := i + 1;
      }
      assert StatesOf(tickets) == pre.tickets;
      return false;
    }
  }
}
