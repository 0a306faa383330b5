/** A single-use ticket: an immutable hash plus the sold and used flags. */
module Tickets {

  /** The value of one ticket. */
  datatype TicketState = TicketState(hash: seq<bv8>, sold: bool, used: bool)

  /** `validateTicket` on a ticket value: the verdict and the ticket afterwards.
      It is the at-most-once gate: it accepts only an unused ticket whose hash
      byte-equals the candidate, and spends it. */
  function Validate(t: TicketState, candidate: seq<bv8>): (r: (bool, TicketState))
    ensures r.0 <==> !t.used && candidate == t.hash
    ensures r.1.hash == t.hash && r.1.sold == t.sold
    ensures r.1.used <==> t.used || r.0
  {
    if t.used then (false, t)
    else if candidate == t.hash then (true, t.(used := true))
    else (false, t)
  }

  /** How many of the successive `validateTicket` calls, one per candidate, succeed. */
  function Successes(t: TicketState, candidates: seq<seq<bv8>>): (n: nat)
    decreases |candidates|
  {
    if candidates == [] then 0
    else
      var (ok, next) := Validate(t, candidates[0]);
      (if ok then 1 else 0) + Successes(next, candidates[1..])
  }

  /** However many candidates are presented, a ticket validates at most once,
      and a used ticket never again. */
  lemma {:induction false} AtMostOnce(t: TicketState, candidates: seq<seq<bv8>>)
    decreases |candidates|
    ensures Successes(t, candidates) <= if t.used then 0 else 1
  {
    if candidates != [] {
      AtMostOnce(Validate(t, candidates[0]).1, candidates[1..]);
    }
  }

  /** Successive validations never change the hash or the sold flag. */
  function AfterAll(t: TicketState, candidates: seq<seq<bv8>>): (last: TicketState)
    decreases |candidates|
  {
    if candidates == [] then t else AfterAll(Validate(t, candidates[0]).1, candidates[1..])
  }

  lemma {:induction false} HashNeverChanges(t: TicketState, candidates: seq<seq<bv8>>)
    decreases |candidates|
    ensures AfterAll(t, candidates).hash == t.hash
    ensures AfterAll(t, candidates).sold == t.sold
  {
    if candidates != [] {
      HashNeverChanges(Validate(t, candidates[0]).1, candidates[1..]);
    }
  }

  // ----- Scans over an ordered sequence of tickets -----

  /** Index of the first ticket that `validateTicket` would accept, or |s| if none. */
  function FirstValid(s: seq<TicketState>, candidate: seq<bv8>): (k: nat)
    ensures k <= |s|
    ensures forall j :: 0 <= j < k ==> !Validate(s[j], candidate).0
    ensures k < |s| ==> Validate(s[k], candidate).0
  {
    if s == [] then 0
    else if Validate(s[0], candidate).0 then 0
    else 1 + FirstValid(s[1..], candidate)
  }

  /** The search loop that calls `validateTicket` on each ticket in order and stops
      at the first success: the verdict and the tickets afterwards. */
  function ValidateFirst(s: seq<TicketState>, candidate: seq<bv8>): (r: (bool, seq<TicketState>))
    ensures r.0 <==> exists j :: 0 <= j < |s| && Validate(s[j], candidate).0
    ensures !r.0 ==> r.1 == s
    ensures r.0 ==> var k := FirstValid(s, candidate);
      |r.1| == |s| && r.1[k].used &&
      forall j :: 0 <= j < |s| ==> r.1[j] == if j == k then s[j].(used := true) else s[j]
  {
    var k := FirstValid(s, candidate);
    if k == |s| then (false, s) else (true, s[k := Validate(s[k], candidate).1])
  }

  /** No two tickets of the sequence share a hash. */
  ghost predicate DistinctHashes(s: seq<TicketState>) {
    forall i, j :: 0 <= i < j < |s| ==> s[i].hash != s[j].hash
  }

  /** Each successful search spends a ticket further along than the one before:
      a candidate is accepted at most as often as there are tickets carrying it. */
  lemma SecondSearchGoesFurther(s: seq<TicketState>, candidate: seq<bv8>)
    requires ValidateFirst(s, candidate).0
    ensures FirstValid(ValidateFirst(s, candidate).1, candidate) > FirstValid(s, candidate)
  {
  }

  /** When hashes are distinct, the same candidate is accepted at most once by a
      search loop run twice. */
  lemma SearchAtMostOnce(s: seq<TicketState>, candidate: seq<bv8>)
    requires DistinctHashes(s)
    requires ValidateFirst(s, candidate).0
    ensures !ValidateFirst(ValidateFirst(s, candidate).1, candidate).0
  {
  }

  // ----- The Java objects -----

  class Ticket {
    const hash: seq<bv8>
    var used: bool
    var sold: bool

    function State(): TicketState
      reads this
    {
      TicketState(hash, sold, used)
    }

    constructor(hashInput: seq<bv8>)
      ensures State() == TicketState(hashInput, false, false)
    {
      hash := hashInput;
      used := false;
      sold := false;
    }

    method ValidateTicket(hashInput: seq<bv8>) returns (valid: bool)
      modifies this
      ensures (valid, State()) == Validate(old(State()), hashInput)
    {
      if used {
        return false;
      } else if hashInput == hash {
        used := true;
        return true;
      } else {
        return false;
      }
    }

    /** The ticket's hash, fixed at construction. */
    function GetHash(): (h: seq<bv8>)
      reads this
      ensures h == State().hash
    {
      hash
    }

    /** Whether the ticket has been admitted. */
    function IsUsed(): (u: bool)
      reads this
      ensures u == State().used
    {
      used
    }

    /** Whether the ticket has been sold. */
    function IsSold(): (s: bool)
      reads this
      ensures s == State().sold
    {
      sold
    }

    method SetSold(b: bool)
      modifies this
      ensures State() == old(State()).(sold := b)
    {
      sold := b;
    }

    /** Makes the ticket sellable again: neither sold nor used. */
    method Refund()
      modifies this
      ensures State() == TicketState(hash, false, false)
    {
      sold := false;
      used := false;
    }
  }

  /** A Java `Ticket[]` the scans can run over: no null slot, no ticket object in two slots. */
  ghost predicate TicketArray(a: array<Ticket?>)
    reads a
  {
    (forall i :: 0 <= i < a.Length ==> a[i] != null) &&
    (forall i, j :: 0 <= i < j < a.Length ==> a[i] != a[j])
  }

  /** The ticket values held by the array, in order. */
  ghost function StatesOf(a: array<Ticket?>): (s: seq<TicketState>)
    requires TicketArray(a)
    reads a, a[..]
    ensures |s| == a.Length
    ensures forall i :: 0 <= i < a.Length ==> s[i] == a[i].State()
  {
    seq(a.Length, i requires 0 <= i < a.Length && a[i] != null reads a, a[..] => a[i].State())
  }

  /** The array's values after one slot's ticket changed to `t` and every other slot kept its value. */
  lemma StatesAfterSlotChange(a: array<Ticket?>, before: seq<TicketState>, i: nat, t: TicketState)
    requires TicketArray(a) && |before| == a.Length && i < a.Length
    requires a[i].State() == t
    requires forall j :: 0 <= j < a.Length && j != i ==> a[j].State() == before[j]
    ensures StatesOf(a) == before[i := t]
  {
  }
}
