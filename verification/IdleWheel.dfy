/** The idle-connection wheel of src/httpserver.h and src/httpserver.cc: three buckets of shared references to
    entries in a circular buffer; dropping the last reference runs ~Entry of src/server/entry.h, which shuts the
    connection down. Access is by one thread. An entry is a number; it is alive while some bucket holds it. */
module IdleWheels {

  const SLOTS: nat := 3

  type Buckets = seq<set<nat>>

  predicate Alive(buckets: Buckets, id: nat) {
    exists b | 0 <= b < |buckets| :: id in buckets[b]
  }

  /** What the wheel stands for: `now` counts ticks, `last` is the tick of the last activity of every entry. */
  datatype Activity = Activity(now: nat, last: map<nat, nat>)

  function IdleTicks(a: Activity, id: nat): int
    requires id in a.last
  {
    a.now - a.last[id]
  }

  /** How often an entry must have been shut down. */
  function GoneCount(a: Activity, id: nat): nat {
    if id in a.last && IdleTicks(a, id) >= 3 then 1 else 0
  }

  predicate ThirdIdleTick(a: Activity, id: nat) {
    id in a.last && IdleTicks(a, id) == 3
  }

  /** The wheel in terms of the activity map: bucket `b` holds only entries that were active `2 - b` ticks ago or
      later, and an entry active within three ticks is in the bucket of its last activity. */
  ghost predicate Refines(buckets: Buckets, a: Activity) {
    && |buckets| == SLOTS
    && (forall id | id in a.last :: a.last[id] <= a.now)
    && (forall b, id | 0 <= b < SLOTS && id in buckets[b] :: id in a.last && IdleTicks(a, id) <= 2 - b)
    && (forall id | id in a.last && IdleTicks(a, id) < SLOTS :: id in buckets[2 - IdleTicks(a, id)])
  }

  /** An entry is alive exactly when fewer than three ticks have passed since its last activity. */
  lemma AliveIff(buckets: Buckets, a: Activity, id: nat)
    requires Refines(buckets, a)
    ensures Alive(buckets, id) <==> id in a.last && IdleTicks(a, id) < 3
  {
  }

  /** boost::circular_buffer::push_back on a full buffer. */
  function Turned(buckets: Buckets): Buckets
    requires |buckets| == SLOTS
  {
    buckets[1..] + [{}]
  }

  /** A tick evicts exactly the entries whose third idle tick it is. */
  lemma TurnEvictsIff(buckets: Buckets, a: Activity, id: nat)
    requires |buckets| == SLOTS && Refines(buckets, a)
    ensures Refines(Turned(buckets), a.(now := a.now + 1))
    ensures Alive(buckets, id) && !Alive(Turned(buckets), id) <==> ThirdIdleTick(a.(now := a.now + 1), id)
  {
    var t := Turned(buckets);
    var a' := a.(now := a.now + 1);
    forall k | k in a'.last && IdleTicks(a', k) < SLOTS
      ensures k in t[2 - IdleTicks(a', k)]
    {
      if IdleTicks(a, k) >= 0 {
        assert k in buckets[2 - IdleTicks(a, k)];
      }
    }
    forall b, k | 0 <= b < SLOTS && k in t[b]
      ensures k in a'.last && IdleTicks(a', k) <= 2 - b
    {
      assert b < 2 && k in buckets[b + 1];
    }
    assert Refines(t, a');
    AliveIff(buckets, a, id);
    AliveIff(t, a', id);
  }

  function Inserted(buckets: Buckets, id: nat): Buckets
    requires |buckets| == SLOTS
  {
    buckets[2 := buckets[2] + {id}]
  }

  lemma InsertRefreshes(buckets: Buckets, a: Activity, id: nat)
    requires |buckets| == SLOTS && Refines(buckets, a)
    ensures Refines(Inserted(buckets, id), a.(last := a.last[id := a.now]))
  {
  }

  class IdleWheel {
    var buckets: Buckets
    var nextEntry: nat
    var shutdowns: seq<nat>
    ghost var activity: Activity

    /** Every entry that has gone was shut down once, no other was. */
    ghost predicate ShutDownOnce()
      reads this
    {
      forall id: nat :: multiset(shutdowns)[id] == GoneCount(activity, id)
    }

    ghost predicate Valid()
      reads this
    {
      && Refines(buckets, activity) && ShutDownOnce()
      && forall id | id in activity.last :: id < nextEntry
    }

    constructor ()
      ensures Valid() && activity == Activity(0, map[]) && shutdowns == [] && nextEntry == 0
    {
      buckets, nextEntry, shutdowns := [{}, {}, {}], 0, [];
      activity := Activity(0, map[]);
    }

    /** connection_cb of a new connection: a new entry in the back bucket. */
    method Connected() returns (id: nat)
      requires Valid()
      modifies this
      ensures Valid() && id !in old(activity).last
      ensures activity == old(activity).(last := old(activity).last[id := old(activity).now])
      ensures shutdowns == old(shutdowns) && Alive(buckets, id)
    {
      id := nextEntry;
      InsertRefreshes(buckets, activity, id);
      nextEntry := nextEntry + 1;
      buckets := buckets[2 := buckets[2] + {id}];
      activity := activity.(last := activity.last[id := activity.now]);
      assert id in buckets[2];
    }

    /** message_cb: an entry that is still alive moves to the back bucket; one that has gone is not revived. */
    method Message(id: nat) returns (served: bool)
      requires Valid() && id in activity.last
      modifies this
      ensures Valid() && shutdowns == old(shutdowns)
      ensures served <==> old(IdleTicks(activity, id)) < 3
      ensures activity == if served then old(activity).(last := old(activity).last[id := old(activity).now]) else old(activity)
    {
      AliveIff(buckets, activity, id);
      served := Alive(buckets, id);
      if served {
        InsertRefreshes(buckets, activity, id);
        buckets := buckets[2 := buckets[2] + {id}];
        activity := activity.(last := activity.last[id := activity.now]);
      }
    }

    /** ontime: a new bucket at the back, the front one destroyed, and with it the entries nothing else holds. */
    method OnTime()
      requires Valid()
      modifies this
      ensures Valid() && activity == old(activity).(now := old(activity).now + 1)
      ensures old(shutdowns) <= shutdowns
      ensures forall id: nat :: id in shutdowns[|old(shutdowns)|..] <==> ThirdIdleTick(activity, id)
    {
      var front := buckets[0];
      ghost var a := activity;
      ghost var before := buckets;
      forall id: nat
        ensures Alive(buckets, id) && !Alive(Turned(buckets), id) <==> ThirdIdleTick(a.(now := a.now + 1), id)
      {
        TurnEvictsIff(buckets, a, id);
      }
      TurnEvictsIff(buckets, a, 0);
      buckets := buckets[1..] + [{}];
      activity := a.(now := a.now + 1);
      var dropped: seq<nat> := [];
      while front != {}
        invariant buckets == Turned(before) && activity == a.(now := a.now + 1) && front <= before[0]
        invariant shutdowns == old(shutdowns) && nextEntry == old(nextEntry)
        invariant forall id: nat :: multiset(dropped)[id] == DroppedCount(before[0] - front, buckets, id)
        decreases front
      {
        var id: nat :| id in front;
        front := front - {id};
        if !Alive(buckets, id) {
          dropped := dropped + [id];
        }
      }
      DroppedAreExpired(before, a, dropped);
      AppendedOnce(shutdowns, dropped);
      shutdowns := shutdowns + dropped;
    }
  }

  /** How often an entry of a destroyed bucket is destroyed with it. */
  function DroppedCount(bucket: set<nat>, buckets: Buckets, id: nat): nat {
    if id in bucket && !Alive(buckets, id) then 1 else 0
  }

  lemma DroppedAreExpired(buckets: Buckets, a: Activity, dropped: seq<nat>)
    requires |buckets| == SLOTS && Refines(buckets, a)
    requires forall id: nat :: multiset(dropped)[id] == DroppedCount(buckets[0], Turned(buckets), id)
    ensures forall id: nat :: multiset(dropped)[id] == if ThirdIdleTick(a.(now := a.now + 1), id) then 1 else 0
  {
    forall id: nat
      ensures id in buckets[0] && !Alive(Turned(buckets), id) <==> ThirdIdleTick(a.(now := a.now + 1), id)
    {
      TurnEvictsIff(buckets, a, id);
      if ThirdIdleTick(a.(now := a.now + 1), id) {
        assert id in buckets[2 - IdleTicks(a, id)];
      }
      if id in buckets[0] {
        assert Alive(buckets, id);
      }
    }
  }

  lemma AppendedOnce(s: seq<nat>, t: seq<nat>)
    ensures multiset(s + t) == multiset(s) + multiset(t)
    ensures (s + t)[|s|..] == t
    ensures forall id :: id in t <==> multiset(t)[id] > 0
  {
  }
}
