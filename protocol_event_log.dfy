/**
 * The protocol event log of the sync internals page.  Incoming protocol
 * events are appended to a list; events can be delivered more than once, so
 * the page remembers the timestamps it has seen and drops an event whose
 * timestamp is already known.
 */
module ProtocolEventLog {

  /** An event timestamp, used as the identity of an event. */
  type Timestamp = int

  /** The details of a protocol event: its timestamp and the rest of its fields. */
  datatype EventDetails = EventDetails(time: Timestamp, fields: string)

  /** The set of timestamps of the events in a list. */
  function Times(events: seq<EventDetails>): (ts: set<Timestamp>)
    ensures forall i :: 0 <= i < |events| ==> events[i].time in ts
    ensures forall t :: t in ts ==> exists i :: 0 <= i < |events| && events[i].time == t
  {
    if events == [] then {}
    else
      var prefix := events[..|events| - 1];
      assert forall i :: 0 <= i < |prefix| ==> prefix[i] == events[i];
      Times(prefix) + {events[|events| - 1].time}
  }

  /** No two events of the list share a timestamp. */
  ghost predicate DistinctTimes(events: seq<EventDetails>)
  {
    forall i, j :: 0 <= i < j < |events| ==> events[i].time != events[j].time
  }

  /** The page's two pieces of state: the event list and the set of seen timestamps. */
  datatype Log = Log(events: seq<EventDetails>, known: set<Timestamp>)

  /** The seen set is exactly the timestamps of the logged events, and those are distinct. */
  ghost predicate Consistent(log: Log)
  {
    log.known == Times(log.events) && DistinctTimes(log.events)
  }

  const EmptyLog := Log([], {})

  /** The effect of one delivery of an event. */
  function Receive(log: Log, e: EventDetails): (r: Log)
    ensures e.time in log.known ==> r == log
    ensures e.time !in log.known ==> r.events == log.events + [e] && r.known == log.known + {e.time}
    ensures e.time in r.known && |r.events| <= |log.events| + 1
  {
    if e.time in log.known then log
    else Log(log.events + [e], log.known + {e.time})
  }

  /** The effect of delivering the same event n times. */
  function ReceiveRepeatedly(log: Log, e: EventDetails, n: nat): Log
    decreases n
  {
    if n == 0 then log else ReceiveRepeatedly(Receive(log, e), e, n - 1)
  }

  /** The effect of delivering a list of events in order. */
  function ReceiveAll(log: Log, es: seq<EventDetails>): Log
    decreases |es|
  {
    if es == [] then log else ReceiveAll(Receive(log, es[0]), es[1..])
  }

  lemma TimesOfAppend(events: seq<EventDetails>, e: EventDetails)
    ensures Times(events + [e]) == Times(events) + {e.time}
  {
    assert (events + [e])[..|events|] == events;
  }

  /** One delivery keeps the log consistent. */
  lemma ReceiveKeepsConsistent(log: Log, e: EventDetails)
    requires Consistent(log)
    ensures Consistent(Receive(log, e))
  {
    if e.time !in log.known {
      TimesOfAppend(log.events, e);
    }
  }

  /**
   * An already-seen timestamp leaves both pieces of state unchanged; an unseen
   * one is appended at the end and added to the seen set.
   */
  lemma ReceiveCases(log: Log, e: EventDetails)
    requires Consistent(log)
    ensures e.time in Times(log.events) ==> Receive(log, e) == log
    ensures e.time !in Times(log.events) ==>
      Receive(log, e).events == log.events + [e] && Receive(log, e).known == log.known + {e.time}
    ensures e.time in Receive(log, e).known
    ensures Receive(log, e).events[..|log.events|] == log.events
  {
  }

  /** Re-delivering an event any positive number of times has the effect of one delivery. */
  lemma {:induction false} ReceiveRepeatedlyIsIdempotent(log: Log, e: EventDetails, n: nat)
    requires n >= 1
    ensures ReceiveRepeatedly(log, e, n) == Receive(log, e)
    decreases n
  {
    if n > 1 {
      var once := Receive(log, e);
      assert Receive(once, e) == once;
      ReceiveRepeatedlyIsIdempotent(once, e, n - 1);
    }
  }

  /**
   * Over any stream of deliveries the log stays consistent, existing entries
   * keep their positions, and the seen set gains exactly the delivered timestamps.
   */
  lemma {:induction false} ReceiveAllProperties(log: Log, es: seq<EventDetails>)
    requires Consistent(log)
    ensures Consistent(ReceiveAll(log, es))
    ensures |log.events| <= |ReceiveAll(log, es).events|
    ensures ReceiveAll(log, es).events[..|log.events|] == log.events
    ensures ReceiveAll(log, es).known == log.known + Times(es)
    decreases |es|
  {
    if es != [] {
      var next := Receive(log, es[0]);
      ReceiveKeepsConsistent(log, es[0]);
      ReceiveAllProperties(next, es[1..]);
      assert next.events[..|log.events|] == log.events;
      assert ReceiveAll(log, es).events[..|log.events|] == next.events[..|log.events|];
      TimesOfFront(es);
    }
  }

  lemma TimesOfFront(es: seq<EventDetails>)
    requires es != []
    ensures Times(es) == {es[0].time} + Times(es[1..])
  {
    var t1 := Times(es);
    var t2 := {es[0].time} + Times(es[1..]);
    forall t | t in t1 ensures t in t2 {
      var i :| 0 <= i < |es| && es[i].time == t;
      if i > 0 { assert es[1..][i - 1] == es[i]; }
    }
    forall t | t in t2 ensures t in t1 {
      if t != es[0].time {
        var i :| 0 <= i < |es[1..]| && es[1..][i].time == t;
        assert es[i + 1] == es[1..][i];
      }
    }
  }

  /** The page's module-level state, updated in place by the event callback. */
  class EventLog {
    var protocolEvents: seq<EventDetails>
    var knownEventTimestamps: set<Timestamp>

    function State(): Log
      reads this
    {
      Log(protocolEvents, knownEventTimestamps)
    }

    ghost predicate Valid()
      reads this
    {
      Consistent(State())
    }

    constructor ()
      ensures Valid() && State() == EmptyLog
    {
      protocolEvents := [];
      knownEventTimestamps := {};
    }

    /** The callback for an incoming protocol event. */
    method OnReceivedProtocolEvent(details: EventDetails)
      requires Valid()
      modifies this
      ensures Valid()
      ensures State() == Receive(old(State()), details)
      ensures old(details.time in knownEventTimestamps) ==>
        protocolEvents == old(protocolEvents) && knownEventTimestamps == old(knownEventTimestamps)
      ensures old(details.time !in knownEventTimestamps) ==>
        protocolEvents == old(protocolEvents) + [details] &&
        knownEventTimestamps == old(knownEventTimestamps) + {details.time}
    {
      ReceiveKeepsConsistent(State(), details);
      if details.time in knownEventTimestamps {
        return;
      }
      knownEventTimestamps := knownEventTimestamps + {details.time};
      protocolEvents := protocolEvents + [details];
    }
  }
}
