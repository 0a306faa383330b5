# tickets_web: the ticket lifecycle, modelled and proved in Dafny

This project models the core of tickets_web, a small ticketing backend. An event owns an
array of single-use tickets, and each ticket is identified by a hash derived from the
organiser's password. The model covers:

- **Ticket**: an immutable hash with a `used` flag and a `sold` flag. `validateTicket` is
  the at-most-once gate. It accepts only an unused ticket whose hash byte-equals the
  candidate, and then marks it used.
- **Event**: a name, an announced ticket total, a `ticketsSold` counter and a `Ticket[]`.
  It has three in-place linear scans:
  - `getNextUnsoldTicket` sells the first unsold ticket.
  - `verifyTicket` spends the first ticket that validates.
  - `refundTicket` resets the first ticket that validates and decrements the counter.
- **Backend**: `createTicketHashes` gives ticket `i` the digest of the password followed
  by the decimal text of `i`. The search loop of `verifyTicket` runs over a ticket array
  that is passed in directly.

## Layout

| file | module | contents |
|---|---|---|
| exceptions.dfy | `Exceptions` | `Error` (`NoTicketsAvailable`, `NegativeArraySize`) and `Result<T>`, which stand in for thrown exceptions |
| ticket.dfy | `Tickets` | `TicketState`, the `Validate` gate, scans over ticket sequences, the `Ticket` class, and `StatesOf`, the values held by a `Ticket[]` |
| event.dfy | `Events` | `EventState`, the value-level operations `NextUnsold`, `Verify`, `Refund` and `RefundSold`, lemmas about the sold counter, and the `Event` class |
| backend.dfy | `Backend` | decimal conversion, `Batch`, `CreateTicketHashes`, `VerifyTicket`, and the concert scenario |
| scenarios.dfy | `Scenarios` | the two ticket tests of `BackendTest.java`, replayed against the objects |

The classes follow the Java objects. `Ticket` has `modifies this` methods. `Event` keeps
its ticket array in a field, with a ghost `Repr` footprint. Each of its methods is proved
against a value-level function: `(result, Abs()) == F(old(Abs()))`. The lemmas about
those functions carry the properties. The Java getters (`getHash`, `isUsed`, `isSold`,
`getTotalNumTickets`) are Dafny functions that read one field. The ticket's hash is a
`const`, so nothing can change it after construction.

The digest (SHA-256 over UTF-8 bytes in the source) is a parameter
`digest: string -> seq<bv8>`. So every property holds for every digest. The properties
that need distinct ticket hashes assume an injective digest (`Backend.Injective`).

Java's `Ticket.java` has no `sold` field. It also has no `isSold`, `setSold` or `refund`,
although `Event.java` calls all three. The model adds them in their minimal form:

- `sold` starts false.
- `SetSold` assigns it, and `IsSold` reads it.
- `Refund` clears both `sold` and `used`, so that a refunded ticket can be sold again.

## Where the code departs from the intended lifecycle (the model follows the code)

The intended lifecycle is that a ticket is sold before it is used, a refund matches by
hash alone and makes the ticket sellable again, and `ticketsSold` counts the sold tickets.

- `refundTicket` finds its ticket through `validateTicket`. So a ticket that is already
  used cannot be refunded, although a refund is meant to match by hash alone
  (`Backend.ConcertScenario`).
- `verifyTicket` does not look at the sold flag. An unsold ticket's hash is therefore
  accepted, which leaves a ticket used but not sold (`Events.VerifyAcceptsUnsoldTicket`).
  So "a used ticket has been sold" does not hold in the code.
- `refundTicket` does not check that the ticket was sold (see Findings).
- `totalNumTickets` is stored as given. Nothing ties it to the length of the array.
- Two tickets with the same hash are not prevented. At-most-once redemption per event
  therefore holds only when the hashes are distinct (`Events.VerifyAtMostOnce`).
  Without that assumption, each further success spends a later ticket
  (`Events.VerifyAgainGoesFurther`).

## Model

| member | source | states |
|---|---|---|
| `Tickets.Validate` | src/main/java/com/example/tickets_web/Ticket.java:21-32 | validation succeeds iff the ticket is unused and the candidate equals the hash; on success `used` becomes true; the hash and the sold flag never change; a failure changes nothing |
| `Tickets.AtMostOnce` | src/main/java/com/example/tickets_web/Ticket.java:21-32 | over any sequence of candidates a ticket validates at most once, and a used ticket never |
| `Tickets.HashNeverChanges` | src/main/java/com/example/tickets_web/Ticket.java:43-44 | no sequence of validations changes the hash or the sold flag |
| `Tickets.Ticket.constructor` | src/main/java/com/example/tickets_web/Ticket.java:16-19 | a new ticket holds the given hash and is neither used nor sold |
| `Tickets.Ticket.ValidateTicket` | src/main/java/com/example/tickets_web/Ticket.java:21-32 | the verdict and the new ticket state are exactly those of `Validate` on the old state |
| `Tickets.Ticket.GetHash` | src/main/java/com/example/tickets_web/Ticket.java:35-37 | returns the ticket's hash field |
| `Tickets.Ticket.IsUsed` | src/main/java/com/example/tickets_web/Ticket.java:39-41 | returns the ticket's used flag |
| `Tickets.Ticket.IsSold` | src/main/java/com/example/tickets_web/Event.java:41 | returns the ticket's sold flag (the getter Event.java calls) |
| `Tickets.Ticket.SetSold` | src/main/java/com/example/tickets_web/Event.java:42 | sets `sold` to the argument and leaves the hash and `used` unchanged |
| `Tickets.Ticket.Refund` | src/main/java/com/example/tickets_web/Event.java:62 | the ticket keeps its hash and becomes unsold and unused |
| `Tickets.FirstValid` | src/main/java/com/example/tickets_web/Event.java:80-81 | the index of the first ticket that validates (or the length): no earlier ticket validates |
| `Tickets.ValidateFirst` | src/main/java/com/example/tickets_web/Backend.java:47-53 | the search loop returns true iff some ticket validates; only the first such ticket becomes used; on false nothing changes |
| `Tickets.SearchAtMostOnce` | src/main/java/com/example/tickets_web/Backend.java:47-53 | with distinct hashes, running the search twice with the same candidate cannot succeed twice |
| `Tickets.SecondSearchGoesFurther` | src/main/java/com/example/tickets_web/Event.java:79-86 | after a success, the next success with the same candidate is at a strictly later index |
| `Events.FirstUnsold` | src/main/java/com/example/tickets_web/Event.java:40-41 | the index of the lowest unsold ticket (or the length): every earlier ticket is sold |
| `Events.NextUnsold` | src/main/java/com/example/tickets_web/Event.java:39-47 | succeeds iff some ticket is unsold; it sells exactly the lowest unsold one and adds 1 to `ticketsSold`; every other ticket, every used flag, the name and the total stay unchanged; otherwise NoTicketsAvailable and nothing changes |
| `Events.Verify` | src/main/java/com/example/tickets_web/Event.java:79-86 | true iff some unused ticket has the hash; only the first such ticket becomes used; counters unchanged; on false the event is unchanged |
| `Events.Refund` | src/main/java/com/example/tickets_web/Event.java:59-67 | true iff some unused ticket has the hash; exactly that first ticket is reset to unsold and unused, and `ticketsSold` drops by exactly 1; on false nothing changes |
| `Events.FirstRefundable` | src/main/java/com/example/tickets_web/Event.java:60-61 | the first ticket that is sold and validates (or the length) |
| `Events.RefundSold` | src/main/java/com/example/tickets_web/Event.java:52-67 | the guarded refund: succeeds iff some sold, unused ticket has the hash; resets the first one and decrements the counter |
| `Events.NextUnsoldKeepsCount` | src/main/java/com/example/tickets_web/Event.java:42-43 | selling keeps `ticketsSold` equal to the number of sold tickets |
| `Events.NoTicketsMeansAllSold` | src/main/java/com/example/tickets_web/Event.java:40-47 | once NoTicketsAvailable is reported from a consistent event, `ticketsSold` equals the number of tickets |
| `Events.VerifyKeepsCount` | src/main/java/com/example/tickets_web/Event.java:79-86 | verification leaves every sold flag, the sold count and the consistency of the counter intact |
| `Events.RefundKeepsCountIffSold` | src/main/java/com/example/tickets_web/Event.java:61-63 | after a successful refund the counter is still consistent exactly when the refunded ticket had been sold |
| `Events.RefundOfUnsoldTicket` | src/main/java/com/example/tickets_web/Event.java:59-67 | refunding the hash of a never-sold ticket succeeds and leaves the counter one below the sold count (-1 in an event with nothing sold) |
| `Events.RefundSoldKeepsCount` | src/main/java/com/example/tickets_web/Event.java:52-67 | the guarded refund always keeps the counter consistent |
| `Events.CounterBoundedBySold` | src/main/java/com/example/tickets_web/Event.java:39-86 | `ticketsSold` never exceeds the number of sold tickets under any of the three operations, so the increment cannot overflow |
| `Events.VerifyAtMostOnce` | src/main/java/com/example/tickets_web/Event.java:79-86 | with distinct hashes, verifying the same hash twice answers true and then false |
| `Events.VerifyAgainGoesFurther` | src/main/java/com/example/tickets_web/Event.java:79-86 | whatever the hashes, a second success with the same hash spends a later ticket |
| `Events.VerifyAcceptsUnsoldTicket` | src/main/java/com/example/tickets_web/Event.java:79-86 | an unsold, unused ticket's hash is accepted and leaves that ticket used but unsold |
| `Events.SellThenRefundRestores` | src/main/java/com/example/tickets_web/Event.java:39-67 | selling the next ticket and refunding it by its hash restores the event exactly, and the next sale hands out the same ticket |
| `Events.FreshSellRedeemTwice` | src/test/java/com/example/tickets_web/BackendTest.java:19-22 | from a fresh event the first sale is ticket 0, which is admitted once and then refused |
| `Events.FreshSellRefund` | src/test/java/com/example/tickets_web/BackendTest.java:38-42 | from a fresh event, sell then refund brings `ticketsSold` from 1 back to 0 and restores the event |
| `Events.Event.constructor` | src/main/java/com/example/tickets_web/Event.java:15-20 | stores the name, the total and the array itself; `ticketsSold` is 0 |
| `Events.Event.GetTotalNumTickets` | src/main/java/com/example/tickets_web/Event.java:31-33 | returns the announced total stored by the constructor |
| `Events.Event.GetNextUnsoldTicket` | src/main/java/com/example/tickets_web/Event.java:39-47 | the returned ticket, the new ticket states and the counter are those of `NextUnsold`; the array and the footprint are unchanged |
| `Events.Event.VerifyTicket` | src/main/java/com/example/tickets_web/Event.java:79-86 | the verdict and the new event value are those of `Verify` |
| `Events.Event.RefundTicket` | src/main/java/com/example/tickets_web/Event.java:59-67 | the verdict and the new event value are those of `Refund` |
| `Events.Event.RefundSoldTicket` | src/main/java/com/example/tickets_web/Event.java:52-67 | the guarded loop's verdict and new event value are those of `RefundSold` |
| `Backend.Decimal` | src/main/java/com/example/tickets_web/Backend.java:91 | the decimal text of a non-negative int is non-empty, all digits, with no leading zero |
| `Backend.ParseDecimalOfDecimal` | src/main/java/com/example/tickets_web/Backend.java:91 | reading the decimal text back gives the number (so the text is injective) |
| `Backend.DigestInputsDistinct` | src/main/java/com/example/tickets_web/Backend.java:91 | distinct indices give distinct digest inputs `password + i` |
| `Backend.Batch` | src/main/java/com/example/tickets_web/Backend.java:88-97 | the batch for `n` has exactly `n` tickets |
| `Backend.BatchHashesDistinct` | src/main/java/com/example/tickets_web/Backend.java:88-97 | under an injective digest no two tickets of a batch share a hash |
| `Backend.BatchEventIsFresh` | src/main/java/com/example/tickets_web/Backend.java:94 | every created ticket starts unsold and unused, so an event over a batch starts with a consistent counter of 0 |
| `Backend.ConcertScenario` | src/test/java/com/example/tickets_web/BackendTest.java:17-22 | for "concert"/"hunter2"/20: the first sale is the ticket for "hunter20", it is admitted once and not twice, and once spent it cannot be refunded |
| `Backend.ConcertRefundBeforeSale` | src/main/java/com/example/tickets_web/Event.java:59-67 | before any sale, refunding the hash for "hunter20" succeeds and sets `ticketsSold` to -1 while no ticket is sold |
| `Backend.CreateTicketHashes` | src/main/java/com/example/tickets_web/Backend.java:88-97 | a negative count fails; otherwise a fresh array of exactly `n` distinct fresh tickets whose values equal `Batch`, so the same password and count always give the same hashes |
| `Backend.VerifyTicket` | src/main/java/com/example/tickets_web/Backend.java:47-53 | the verdict and new ticket values are those of `ValidateFirst`: true iff some ticket validates, only the first is spent, and nothing changes on false |
| `Scenarios.ConcertEvent` | src/test/java/com/example/tickets_web/EventTest.java:15-17 | the test event: named "concert", `getTotalNumTickets() == 20`, 20 fresh tickets, nothing sold or used, ticket `i` carrying `digest("hunter2" + i)`, distinct hashes |
| `Scenarios.RedeemTwice` | src/test/java/com/example/tickets_web/BackendTest.java:19-25 | on the objects: the sold ticket's first redemption is accepted, the second refused, and a foreign hash refused |
| `Scenarios.SellAndRefund` | src/test/java/com/example/tickets_web/BackendTest.java:38-43 | on the objects: after sell and refund `ticketsSold` is 0 and the next sale returns the same ticket object |

## Left out

- File persistence is not modelled: `saveTicketArrayToFile`, `readTicketFile` (and its null
  return on failure), and the directory and path building of `createAndSavesTickets`. This
  is file I/O plus Java object serialization. `Backend.VerifyTicket` is the search loop
  alone, without the load before it or the save on success.
- SHA-256 and UTF-8 encoding in `createHashFromPassword` are not modelled. They are foreign
  library calls, so the digest is the parameter `digest`. Its exception path, its null
  result and its debug printing are dropped.
- QR code rendering, the socket listener `start`, `main`, the `/test` route and the Spring
  routing annotations are not modelled. They are UI, network and framework plumbing.
- `Exceptions.java` declares exception classes only. `NoTicketsAvailableException` is
  `Error.NoTicketsAvailable`. `EventNotFoundException` is declared, with `@ResponseStatus` mapping it to 404, but no
  code shown here raises it, so nothing models it.
- `addTickets` (called in EventTest.java:14,19 to extend an event with more tickets) does
  not exist in the source. Neither do `getTicketsSold`, `BadPasswordException`, or a
  `createAndSaveTickets` that returns an `Event`, which the tests also use. There is no
  code to model. `ticketsSold` is read as a field, and `Scenarios.ConcertEvent` builds the
  test event from `CreateTicketHashes` and the `Event` constructor.
- The assertion at BackendTest.java:44 is not encoded. It compares array references, and
  the model proves the opposite: the next sale returns the refunded ticket
  (`Events.SellThenRefundRestores`, `Scenarios.SellAndRefund`).
- `getEventName` and `setEventName` are not modelled. They are trivial accessors and no
  modelled operation uses them.
- A `Ticket[]` with a null slot, or with one ticket object in two slots, is not modelled.
  The scans require `TicketArray`: no null slot and no shared ticket object. In Java a null
  slot throws NullPointerException when a scan reaches it. `createTicketHashes` fills
  every slot with a fresh ticket.
- Events.Event.RefundTicket: `ticketsSold` is an unbounded integer, not a 32-bit one. Upward
  overflow cannot happen (`Events.CounterBoundedBySold`). The Java counter would wrap only
  after 2^31 net unguarded refunds, and the model shows that as an ever more negative
  number instead.
- Hashes are immutable `seq<bv8>` values compared by content, as `Arrays.equals` does. A
  caller that mutates the `byte[]` returned by `getHash` is not modelled, and neither is a
  null hash.
- Concurrent requests against the same event are not modelled. The source is sequential
  and loads and saves a fresh copy per request.

## Findings

| source | as written | input that shows it | evidently intended | confidence | as-written member | corrected member |
|---|---|---|---|---|---|---|
| src/main/java/com/example/tickets_web/Event.java:59-67 | `refundTicket` resets the first ticket that validates and decrements `ticketsSold`, with no check that the ticket was sold | an event fresh from `createTicketHashes("hunter2", 20)`, then `refundTicket(digest("hunter20"))` before any sale: returns true and `ticketsSold` becomes -1 | only a sold ticket is refunded: unsold tickets are skipped without being validated, and the counter stays equal to the number of sold tickets (`Events.RefundSoldKeepsCount`) | medium; not executed | `Backend.ConcertRefundBeforeSale` | `Events.RefundSold` |

`Events.Event.RefundTicket` models the code as written. `Events.Event.RefundSoldTicket` is
the corrected loop, proved against `Events.RefundSold`.
