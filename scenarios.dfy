/** The project's two ticket tests, replayed as clients of the Event and Ticket objects:
    20 tickets for "concert" derived from the password "hunter2". */
module Scenarios {
  import opened Exceptions
  import opened Tickets
  import opened Events
  import opened Backend

  /** Builds the test event over a fresh batch: nothing sold or used, ticket `i` carrying
      the digest of "hunter2" followed by `i`, no two tickets with the same hash. */
  method ConcertEvent(digest: string -> seq<bv8>) returns (event: Event)
    requires Injective(digest)
    ensures fresh(event.Repr) && event.Valid()
    ensures Fresh(event.Abs()) && event.tickets.Length == 20
    ensures event.eventName == "concert" && event.GetTotalNumTickets() == 20
    ensures DistinctHashes(event.Abs().tickets)
    ensures forall i :: 0 <= i < 20 ==> event.Abs().tickets[i].hash == digest("hunter2" + Decimal(i))
  {
    var r := CreateTicketHashes("hunter2", 20, digest);
    event := new Event("concert", 20, r.value);
    BatchHashesDistinct("hunter2", 20, digest);
  }

  /** Selling a ticket, then redeeming it twice: the first redemption is accepted, the second
      refused, and a hash no ticket carries is refused as well. */
  method RedeemTwice(digest: string -> seq<bv8>, badHash: seq<bv8>) returns (first: bool, second: bool, bad: bool)
    requires Injective(digest)
    requires forall i :: 0 <= i < 20 ==> digest("hunter2" + Decimal(i)) != badHash
    ensures first && !second && !bad
  {
    var event := ConcertEvent(digest);
    ghost var e0 := event.Abs();
    FreshSellRedeemTwice(e0);
    var sale := event.GetNextUnsoldTicket();
    assert sale.value == event.tickets[0];
    var hash := sale.value.GetHash();
    ghost var e1 := event.Abs();
    assert e1 == NextUnsold(e0).1;
    assert hash == e0.tickets[0].hash;
    first := event.VerifyTicket(hash);
    ghost var e2 := event.Abs();
    assert first && e2 == Verify(e1, hash).1;
    second := event.VerifyTicket(hash);
    ghost var e3 := event.Abs();
    assert !second && e3 == Verify(e2, hash).1;
    assert forall j :: 0 <= j < 20 ==> e3.tickets[j].hash == e0.tickets[j].hash;
    bad := event.VerifyTicket(badHash);
  }

  /** Selling a ticket and refunding it brings the sold counter back to 0, and the next sale
      hands out that same ticket again. */
  method SellAndRefund(digest: string -> seq<bv8>) returns (refunded: bool, soldAfter: int, sameTicket: bool)
    requires Injective(digest)
    ensures refunded && soldAfter == 0 && sameTicket
  {
    var event := ConcertEvent(digest);
    ghost var e0 := event.Abs();
    FreshSellRefund(e0);
    var sale := event.GetNextUnsoldTicket();
    var hash := sale.value.GetHash();
    refunded := event.RefundTicket(hash);
    soldAfter := event.ticketsSold;
    var again := event.GetNextUnsoldTicket();
    sameTicket := again.Success? && again.value == sale.value;
  }
}
