/**
 The FIFO ticket lock of the server (`queue_lock` with `ticket_init`,
 `ticket_enqueue` and `ticket_dequeue`).

 A lock is the pair of counters `curr` (the ticket now being served) and
 `waiting` (the next ticket to hand out). Each C call is one atomic step:
 `ticket_enqueue` takes ticket `waiting` and increments it, after which its
 caller may enter once `curr` equals its ticket; `ticket_dequeue` increments
 `curr`. The mutex and the condition variable only make these steps atomic
 and the blocking is not modelled: a caller "may enter" when its ticket is
 being served.

 Counters are unbounded naturals; the C fields are `unsigned int`.
 */
module TicketLocks {
  import opened Wrappers

  datatype TicketLock = TicketLock(curr: nat, waiting: nat)

  /** A ticket taken from a lock, together with the lock afterwards. */
  datatype Taken = Taken(ticket: nat, lock: TicketLock)

  /** `ticket_init`: both counters start at zero, so the lock is
      consistent and idle, and the first ticket handed out is 0. */
  function Init(): (r: TicketLock)
    ensures Valid(r) && Idle(r)
    ensures Take(r).ticket == 0
  {
    TicketLock(0, 0)
  }

  /** Ticket `t` has been handed out and its holder has not released yet. */
  predicate Outstanding(l: TicketLock, t: nat)
  {
    l.curr <= t < l.waiting
  }

  /** A lock is idle when every ticket handed out has been released. */
  predicate Idle(l: TicketLock)
  {
    l.curr == l.waiting
  }

  /** The wait condition of `ticket_enqueue`: the holder of `t` proceeds
      exactly when `t` is the ticket being served. */
  predicate MayEnter(l: TicketLock, t: nat)
  {
    t == l.curr
  }

  /** The counters are consistent: never more releases than tickets. */
  predicate Valid(l: TicketLock)
  {
    l.curr <= l.waiting
  }

  /** The atomic part of `ticket_enqueue`: hand out the next ticket. The
      new ticket was not outstanding before, is afterwards, and it is the
      only ticket that became outstanding. */
  function Take(l: TicketLock): (r: Taken)
    ensures r.ticket == l.waiting && r.lock.curr == l.curr
    ensures r.lock.waiting == l.waiting + 1
    ensures !Outstanding(l, r.ticket)
    ensures Valid(l) ==> Valid(r.lock) && Outstanding(r.lock, r.ticket)
    ensures Valid(l) ==> forall t: nat :: Outstanding(r.lock, t) <==> Outstanding(l, t) || t == r.ticket
  {
    Taken(l.waiting, TicketLock(l.curr, l.waiting + 1))
  }

  /** `ticket_dequeue`: serve the next ticket. When a holder releases, its
      ticket (the one being served) stops being outstanding and nothing
      else changes. */
  function Release(l: TicketLock): (r: TicketLock)
    ensures r.waiting == l.waiting && r.curr == l.curr + 1
    ensures Outstanding(l, l.curr) ==> Valid(r)
    ensures Outstanding(l, l.curr) ==>
      forall t: nat :: Outstanding(r, t) <==> Outstanding(l, t) && t != l.curr
  {
    TicketLock(l.curr + 1, l.waiting)
  }

  /** The ticket whose holder is inside the critical section, if any:
      at most one outstanding ticket may enter. */
  function Serving(l: TicketLock): (r: Option<nat>)
    ensures forall t: nat :: r == Some(t) <==> Outstanding(l, t) && MayEnter(l, t)
    ensures r.None? <==> Idle(l) || !Valid(l)
  {
    if l.curr < l.waiting then Some(l.curr) else None
  }

  /** One atomic call on a lock. */
  datatype Event = Acquire | Leave

  /** The lock after a sequence of calls. */
  function Run(l: TicketLock, events: seq<Event>): TicketLock
    decreases |events|
  {
    if |events| == 0 then l
    else match events[0]
      case Acquire => Run(Take(l).lock, events[1..])
      case Leave => Run(Release(l), events[1..])
  }

  /** The tickets handed out by the calls, in the order they were handed out. */
  function Issued(l: TicketLock, events: seq<Event>): seq<nat>
    decreases |events|
  {
    if |events| == 0 then []
    else match events[0]
      case Acquire => [l.waiting] + Issued(Take(l).lock, events[1..])
      case Leave => Issued(Release(l), events[1..])
  }

  /** The tickets whose service ended, in the order the releases happened:
      each release ends the service of the ticket being served. */
  function Served(l: TicketLock, events: seq<Event>): seq<nat>
    decreases |events|
  {
    if |events| == 0 then []
    else match events[0]
      case Acquire => Served(Take(l).lock, events[1..])
      case Leave => [l.curr] + Served(Release(l), events[1..])
  }

  /** Only holders release: every `ticket_dequeue` happens while some
      ticket is outstanding (its caller holds the one being served). */
  predicate HoldersOnly(l: TicketLock, events: seq<Event>)
    decreases |events|
  {
    if |events| == 0 then true
    else match events[0]
      case Acquire => HoldersOnly(Take(l).lock, events[1..])
      case Leave => Outstanding(l, l.curr) && HoldersOnly(Release(l), events[1..])
  }

  /** Every call either hands out one ticket or serves one: the counters
      count the issued and served tickets. */
  lemma {:induction false} RunCounts(l: TicketLock, events: seq<Event>)
    ensures Run(l, events).waiting == l.waiting + |Issued(l, events)|
    ensures Run(l, events).curr == l.curr + |Served(l, events)|
    decreases |events|
  {
    if |events| > 0 {
      match events[0]
      case Acquire => RunCounts(Take(l).lock, events[1..]);
      case Leave => RunCounts(Release(l), events[1..]);
    }
  }

  /** Tickets are handed out consecutively from `waiting`, so they are
      pairwise distinct and strictly increasing. */
  lemma {:induction false} IssuedConsecutive(l: TicketLock, events: seq<Event>)
    ensures forall i :: 0 <= i < |Issued(l, events)| ==> Issued(l, events)[i] == l.waiting + i
    decreases |events|
  {
    if |events| > 0 {
      match events[0]
      case Acquire =>
        var rest := Issued(Take(l).lock, events[1..]);
        IssuedConsecutive(Take(l).lock, events[1..]);
        assert Issued(l, events) == [l.waiting] + rest;
      case Leave => IssuedConsecutive(Release(l), events[1..]);
    }
  }

  /** Tickets are served consecutively from `curr`. */
  lemma {:induction false} ServedConsecutive(l: TicketLock, events: seq<Event>)
    ensures forall i :: 0 <= i < |Served(l, events)| ==> Served(l, events)[i] == l.curr + i
    decreases |events|
  {
    if |events| > 0 {
      match events[0]
      case Acquire => ServedConsecutive(Take(l).lock, events[1..]);
      case Leave =>
        var rest := Served(Release(l), events[1..]);
        ServedConsecutive(Release(l), events[1..]);
        assert Served(l, events) == [l.curr] + rest;
    }
  }

  /** Issued tickets are distinct and strictly increasing. */
  lemma IssuedStrictlyIncreasing(l: TicketLock, events: seq<Event>)
    ensures forall i, j :: 0 <= i < j < |Issued(l, events)| ==> Issued(l, events)[i] < Issued(l, events)[j]
  {
    IssuedConsecutive(l, events);
  }

  /** As long as only holders release, the counters stay consistent and
      every release ends the service of a ticket that was outstanding. */
  lemma {:induction false} HoldersOnlyKeepsValid(l: TicketLock, events: seq<Event>)
    requires Valid(l) && HoldersOnly(l, events)
    ensures Valid(Run(l, events))
    decreases |events|
  {
    if |events| > 0 {
      match events[0]
      case Acquire => HoldersOnlyKeepsValid(Take(l).lock, events[1..]);
      case Leave => HoldersOnlyKeepsValid(Release(l), events[1..]);
    }
  }

  /** FIFO service: starting from `ticket_init`, and as long as only
      holders release, the tickets served are exactly a prefix of the
      tickets issued, in the same order: ticket `i` is the `i`-th served. */
  lemma FifoService(events: seq<Event>)
    requires HoldersOnly(Init(), events)
    ensures Served(Init(), events) <= Issued(Init(), events)
    ensures forall i :: 0 <= i < |Served(Init(), events)| ==> Served(Init(), events)[i] == i
  {
    RunCounts(Init(), events);
    HoldersOnlyKeepsValid(Init(), events);
    IssuedConsecutive(Init(), events);
    ServedConsecutive(Init(), events);
  }
}
