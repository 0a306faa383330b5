/** The ticket-producing and ticket-checking parts of the backend: deriving a batch of
    tickets from a password, and the redemption loop over a ticket array. The digest
    (SHA-256 over the UTF-8 bytes in the source) is a parameter. */
module Backend {
  import opened Exceptions
  import opened Tickets
  import opened Events

  // ----- Java's decimal conversion of a non-negative int, as in `password + i` -----

  function Digit(d: nat): (c: char)
    requires d < 10
    ensures '0' <= c <= '9'
  {
    ('0' as int + d) as char
  }

  function DigitValue(c: char): (d: nat) {
    if '0' <= c <= '9' then (c as int) - ('0' as int) else 0
  }

  /** The decimal text of `n`: most significant digit first, no leading zero. */
  function Decimal(n: nat): (s: string)
    ensures |s| >= 1
    ensures forall i :: 0 <= i < |s| ==> '0' <= s[i] <= '9'
    ensures |s| > 1 ==> s[0] != '0'
  {
    if n < 10 then [Digit(n)] else Decimal(n / 10) + [Digit(n % 10)]
  }

  /** Reads a string of decimal digits back as a number. */
  function ParseDecimal(s: string): (n: nat)
    decreases |s|
  {
    if s == [] then 0 else 10 * ParseDecimal(s[..|s| - 1]) + DigitValue(s[|s| - 1])
  }

  lemma {:induction false} ParseDecimalOfDecimal(n: nat)
    ensures ParseDecimal(Decimal(n)) == n
  {
    if n >= 10 {
      var s := Decimal(n);
      assert s == Decimal(n / 10) + [Digit(n % 10)];
      assert s[..|s| - 1] == Decimal(n / 10);
      assert DigitValue(s[|s| - 1]) == n % 10;
      ParseDecimalOfDecimal(n / 10);
      assert ParseDecimal(s) == 10 * (n / 10) + n % 10;
    }
  }

  /** Decimal text is injective, so the indices of a batch give distinct digest inputs. */
  lemma DigestInputsDistinct(password: string, i: nat, j: nat)
    requires i != j
    ensures password + Decimal(i) != password + Decimal(j)
  {
    if password + Decimal(i) == password + Decimal(j) {
      assert (password + Decimal(i))[|password|..] == Decimal(i);
      assert (password + Decimal(j))[|password|..] == Decimal(j);
      ParseDecimalOfDecimal(i);
      ParseDecimalOfDecimal(j);
      assert false;
    }
  }

  // ----- createTicketHashes -----

  /** The tickets `createTicketHashes(password, n)` produces: ticket `i` holds the digest
      of the password followed by the decimal text of `i`, and is neither sold nor used. */
  function Batch(password: string, n: nat, digest: string -> seq<bv8>): (s: seq<TicketState>)
    ensures |s| == n
  {
    seq(n, i requires 0 <= i < n => TicketState(digest(password + Decimal(i)), false, false))
  }

  ghost predicate Injective(digest: string -> seq<bv8>) {
    forall x, y :: digest(x) == digest(y) ==> x == y
  }

  /** Under a collision-free digest, no two tickets of a batch share a hash. */
  lemma BatchHashesDistinct(password: string, n: nat, digest: string -> seq<bv8>)
    requires Injective(digest)
    ensures DistinctHashes(Batch(password, n, digest))
  {
    var s := Batch(password, n, digest);
    forall i, j | 0 <= i < j < n
      ensures s[i].hash != s[j].hash
    {
      DigestInputsDistinct(password, i, j);
    }
  }

  /** An event built over a batch starts fresh: nothing sold, nothing used, counter 0 and consistent. */
  lemma BatchEventIsFresh(eventName: string, password: string, n: nat, digest: string -> seq<bv8>)
    ensures Fresh(EventState(eventName, n, 0, Batch(password, n, digest)))
    ensures Consistent(EventState(eventName, n, 0, Batch(password, n, digest)))
  {
    NoneSoldCount(Batch(password, n, digest));
  }

  /** The scenario of the project's tests, for "concert" with password "hunter2" and 20 tickets:
      the first sale hands out the ticket for "hunter20", it is admitted once and not twice,
      and since it is spent it can no longer be refunded. */
  lemma ConcertScenario(digest: string -> seq<bv8>)
    requires Injective(digest)
    ensures var e0 := EventState("concert", 20, 0, Batch("hunter2", 20, digest));
      var (sale, e1) := NextUnsold(e0);
      var hash := digest("hunter20");
      sale == Success(0) && e1.ticketsSold == 1 && e1.tickets[0].hash == hash &&
      Verify(e1, hash).0 && !Verify(Verify(e1, hash).1, hash).0 &&
      !Refund(Verify(e1, hash).1, hash).0
  {
    var e0 := EventState("concert", 20, 0, Batch("hunter2", 20, digest));
    BatchEventIsFresh("concert", "hunter2", 20, digest);
    BatchHashesDistinct("hunter2", 20, digest);
    assert "hunter2" + Decimal(0) == "hunter20";
    var (sale, e1) := NextUnsold(e0);
    assert DistinctHashes(e1.tickets);
    VerifyAtMostOnce(e1, digest("hunter20"));
  }

  /** Before anything is sold, refunding the hash of the first concert ticket is accepted
      and leaves the sold counter at -1 while no ticket is sold. */
  lemma ConcertRefundBeforeSale(digest: string -> seq<bv8>)
    ensures var e0 := EventState("concert", 20, 0, Batch("hunter2", 20, digest));
      var (ok, e1) := Refund(e0, digest("hunter20"));
      ok && e1.ticketsSold == -1 && SoldCount(e1.tickets) == 0
  {
    var e0 := EventState("concert", 20, 0, Batch("hunter2", 20, digest));
    BatchEventIsFresh("concert", "hunter2", 20, digest);
    assert "hunter2" + Decimal(0) == "hunter20";
    RefundOfUnsoldTicket(e0, 0);
  }

  // ----- The Java methods -----

  /** Builds `numTickets` fresh tickets, ticket `i` holding `digest(password + i)`. A negative
      count fails as Java's array allocation does. */
  method CreateTicketHashes(password: string, numTickets: int, digest: string -> seq<bv8>)
    returns (r: Result<array<Ticket?>>)
    ensures numTickets < 0 ==> r == Failure(NegativeArraySize)
    ensures numTickets >= 0 ==>
      r.Success? && fresh(r.value) && r.value.Length == numTickets && TicketArray(r.value) &&
      (forall i :: 0 <= i < numTickets ==> fresh(r.value[i])) &&
      StatesOf(r.value) == Batch(password, numTickets, digest)
  {
    if numTickets < 0 {
      return Failure(NegativeArraySize);
    }
    var tickets := new Ticket?[numTickets];
    ghost var batch := Batch(password, numTickets, digest);
    for i := 0 to numTickets
      invariant forall j :: 0 <= j < i ==> tickets[j] != null && fresh(tickets[j])
      invariant forall j :: 0 <= j < i ==> tickets[j].State() == batch[j]
      invariant forall j, k :: 0 <= j < k < i ==> tickets[j] != tickets[k]
    {
      var iteratedPassword := password + Decimal(i);
      var hash := digest(iteratedPassword);
      var tic := new Ticket(hash);
      tickets[i] := tic;
    }
    assert TicketArray(tickets);
    assert StatesOf(tickets) == batch;
    return Success(tickets);
  }

  /** The search loop of `verifyTicket` over a loaded ticket array: true iff some ticket
      validates, and only the first one that does is spent. */
  method VerifyTicket(tickets: array<Ticket?>, ticket: seq<bv8>) returns (valid: bool)
    requires TicketArray(tickets)
    modifies tickets[..]
    ensures TicketArray(tickets)
    ensures (valid, StatesOf(tickets)) == ValidateFirst(old(StatesOf(tickets)), ticket)
  {
    ghost var pre := StatesOf(tickets);
    var i := 0;
    while i < tickets.Length
      invariant 0 <= i <= tickets.Length == |pre|
      invariant forall j :: 0 <= j < i ==> !Validate(pre[j], ticket).0
      invariant StatesOf(tickets) == pre
    {
      var tic := tickets[i];
      var ok := tic.ValidateTicket(ticket);
      if ok {
        assert FirstValid(pre, ticket) == i;
        StatesAfterSlotChange(tickets, pre, i, pre[i].(used := true));
        return true;
      }
      i := i + 1;
    }
    return false;
  }
}
