/** src/base/timerqueue.cc over the intended heap: id allocation, the three in-loop operations, the expiry round
    and the armed deadline of the timer descriptor. Every reading of the clock is an argument. */
module TimerQueues {
  import opened CppArithmetic
  import opened SourceForm
  import opened TimerNodes
  import opened FourHeaps

  // ---------------------------------------------------------------- what a callback may do

  datatype Action =
    | Add(delay: nat, repeat: bool, now: int)
    | Cancel(target: int)
    | Extend(micros: int, target: int, repeat: bool)

  /** The queue as its users see it: timers by id, ids cancelled during the round, and how many ids were issued. */
  datatype Book = Book(stored: map<int, TimerNode>, cancelled: set<int>, issued: nat)

  /** One action of a running callback. */
  function Perform(b: Book, a: Action): Book {
    match a
    case Add(delay, repeat, now) =>
      var id := b.issued + 1;
      b.(stored := b.stored[id := NewNode(id, delay, now, repeat)], issued := id)
    case Cancel(id) =>
      if id in b.stored then b.(stored := b.stored - {id}) else b.(cancelled := b.cancelled + {id})
    case Extend(micros, id, repeat) =>
      if id in b.stored then b.(stored := b.stored[id := Extended(b.stored[id], micros, repeat)]) else b
  }

  lemma PerformCancel(b: Book, id: int)
    ensures Perform(b, Cancel(id)) ==
      b.(stored := b.stored - {id}, cancelled := b.cancelled + if id !in b.stored then {id} else {})
  {
    assert id !in b.stored ==> b.stored - {id} == b.stored;
  }

  function PerformAll(b: Book, actions: seq<Action>): Book {
    if actions == [] then b
    else Perform(PerformAll(b, actions[..|actions| - 1]), actions[|actions| - 1])
  }

  /** The actions of the callbacks of a batch, in the order in which they run. */
  function Script(batch: seq<TimerNode>, callbacks: int -> seq<Action>): seq<Action> {
    if batch == [] then []
    else Script(batch[..|batch| - 1], callbacks) + callbacks(batch[|batch| - 1].id)
  }

  /** Lines 150-159 for one timer of the batch. The source does not look the id up before it resets; a timer that
      a callback has removed is meant to be skipped. */
  function ResetOne(b: Book, e: TimerNode, now: int): Book {
    if e.repeat && e.id !in b.cancelled && e.id in b.stored then
      b.(stored := b.stored[e.id := b.stored[e.id].(timer := now + IntervalMicros(e))])
    else if !e.repeat then b.(stored := b.stored - {e.id})
    else b
  }

  function ResetAll(b: Book, batch: seq<TimerNode>, clock: nat -> int): Book {
    if batch == [] then b
    else ResetOne(ResetAll(b, batch[..|batch| - 1], clock), batch[|batch| - 1], clock(|batch| - 1))
  }

  /** Lines 135-139. */
  function Called(b: Book, batch: seq<TimerNode>, callbacks: int -> seq<Action>): Book {
    PerformAll(b.(cancelled := {}), Script(batch, callbacks))
  }

  function Round(b: Book, batch: seq<TimerNode>, callbacks: int -> seq<Action>, clock: nat -> int): Book {
    ResetAll(Called(b, batch, callbacks), batch, clock)
  }

  // ---------------------------------------------------------------- the outcome of an expiry round

  ghost predicate WellKept(b: Book) {
    forall id | id in b.stored :: 0 < id <= b.issued && b.stored[id].id == id && b.stored[id].interval >= 0
  }

  ghost predicate Batch(b: Book, batch: seq<TimerNode>) {
    && (forall e | e in batch :: e.id in b.stored && b.stored[e.id] == e)
    && (forall i, j | 0 <= i < j < |batch| :: batch[i].id != batch[j].id)
  }

  lemma {:induction false} PerformAllKeeps(b: Book, actions: seq<Action>)
    requires WellKept(b)
    ensures WellKept(PerformAll(b, actions)) && PerformAll(b, actions).issued >= b.issued
  {
    if actions != [] {
      PerformAllKeeps(b, actions[..|actions| - 1]);
      assert Quotient(0, MICROS_PER_SECOND) == 0;
    }
  }

  predicate Targets(a: Action, id: int) {
    a == Cancel(id) || (a.Extend? && a.target == id)
  }

  lemma {:induction false} UntargetedKeeps(b: Book, actions: seq<Action>, id: int)
    requires WellKept(b) && id in b.stored
    requires forall a | a in actions :: !Targets(a, id)
    ensures var c := PerformAll(b, actions); id in c.stored && c.stored[id] == b.stored[id]
  {
    if actions != [] {
      var rest := actions[..|actions| - 1];
      PerformAllKeeps(b, rest);
      UntargetedKeeps(b, rest, id);
      assert actions[|actions| - 1] in actions;
    }
  }

  lemma {:induction false} PerformAppend(b: Book, first: seq<Action>, after: seq<Action>)
    ensures PerformAll(b, first + after) == PerformAll(PerformAll(b, first), after)
    decreases |after|
  {
    if after == [] {
      assert first + after == first;
    } else {
      var n := |after| - 1;
      PerformAppend(b, first, after[..n]);
      assert (first + after)[..|first| + n] == first + after[..n];
    }
  }

  function Adds(actions: seq<Action>): nat {
    if actions == [] then 0
    else Adds(actions[..|actions| - 1]) + if actions[|actions| - 1].Add? then 1 else 0
  }

  lemma {:induction false} IssuedByAdds(b: Book, actions: seq<Action>)
    ensures PerformAll(b, actions).issued == b.issued + Adds(actions)
  {
    if actions != [] {
      IssuedByAdds(b, actions[..|actions| - 1]);
    }
  }

  /** A timer that a callback adds has the next id, its deadline counted from the callback's clock, and is there after
      all callbacks unless a later action concerns it. */
  lemma AddedTimerIsStored(b: Book, actions: seq<Action>, i: nat)
    requires WellKept(b) && i < |actions| && actions[i].Add?
    requires forall k | i < k < |actions| :: !Targets(actions[k], b.issued + Adds(actions[..i]) + 1)
    ensures var id := b.issued + Adds(actions[..i]) + 1; var c := PerformAll(b, actions);
      id in c.stored &&
      c.stored[id] == TimerNode(id, actions[i].delay / 1000000, actions[i].repeat, actions[i].now + actions[i].delay)
  {
    var id := b.issued + Adds(actions[..i]) + 1;
    var added := PerformAll(b, actions[..i + 1]);
    AddedLast(b, actions[..i + 1]);
    assert actions[..i + 1][..i] == actions[..i];
    PerformAllKeeps(b, actions[..i + 1]);
    UntargetedKeeps(added, actions[i + 1..], id);
    PerformAppend(b, actions[..i + 1], actions[i + 1..]);
    assert actions == actions[..i + 1] + actions[i + 1..];
  }

  lemma AddedLast(b: Book, actions: seq<Action>)
    requires actions != [] && actions[|actions| - 1].Add?
    ensures var i := |actions| - 1; var id := b.issued + Adds(actions[..i]) + 1; var c := PerformAll(b, actions);
      id in c.stored &&
      c.stored[id] == TimerNode(id, actions[i].delay / 1000000, actions[i].repeat, actions[i].now + actions[i].delay)
  {
    IssuedByAdds(b, actions[..|actions| - 1]);
  }

  /** The extensions of one timer, each by its own time or by the timer's interval. */
  function Extensions(actions: seq<Action>, id: int, interval: int): int {
    if actions == [] then 0
    else
      Extensions(actions[..|actions| - 1], id, interval) +
      match actions[|actions| - 1]
      case Extend(micros, target, _) =>
        if target != id then 0 else if micros > 0 then micros else interval * 1000000
      case _ => 0
  }

  /** Whether it repeats: as the last extension says. */
  function Repeats(actions: seq<Action>, id: int, before: bool): bool {
    if actions == [] then before
    else
      var last := actions[|actions| - 1];
      if last.Extend? && last.target == id then last.repeat else Repeats(actions[..|actions| - 1], id, before)
  }

  /** Callbacks that do not cancel a stored timer move its deadline by exactly their extensions. */
  lemma {:induction false} ExtensionsAddUp(b: Book, actions: seq<Action>, id: int)
    requires WellKept(b) && id in b.stored && Cancels(actions, id) == 0
    ensures var (node, c) := (b.stored[id], PerformAll(b, actions));
      id in c.stored &&
      c.stored[id] == TimerNode(id, node.interval, Repeats(actions, id, node.repeat),
                                node.timer + Extensions(actions, id, node.interval))
  {
    if actions != [] {
      PerformAllKeeps(b, actions[..|actions| - 1]);
      ExtensionsAddUp(b, actions[..|actions| - 1], id);
    }
  }

  function Cancels(actions: seq<Action>, id: int): nat {
    if actions == [] then 0
    else Cancels(actions[..|actions| - 1], id) + if actions[|actions| - 1] == Cancel(id) then 1 else 0
  }

  /** Ids are never issued twice, so what became of a timer is decided by how often it was cancelled. */
  lemma {:induction false} CancelledHowOften(b: Book, actions: seq<Action>, id: int)
    requires WellKept(b) && id in b.stored && id !in b.cancelled
    ensures var c := PerformAll(b, actions); var k := Cancels(actions, id);
      && (id in c.stored <==> k == 0)
      && (id in c.cancelled <==> k >= 2)
  {
    if actions != [] {
      PerformAllKeeps(b, actions[..|actions| - 1]);
      CancelledHowOften(b, actions[..|actions| - 1], id);
    }
  }

  lemma {:induction false} ResetAllElsewhere(b: Book, batch: seq<TimerNode>, clock: nat -> int, id: int)
    requires forall e | e in batch :: e.id != id
    ensures var d := ResetAll(b, batch, clock);
      && d.cancelled == b.cancelled && d.issued == b.issued
      && (id in d.stored <==> id in b.stored)
      && (id in b.stored ==> d.stored[id] == b.stored[id])
  {
    if batch != [] {
      ResetAllElsewhere(b, batch[..|batch| - 1], clock, id);
      assert batch[|batch| - 1] in batch;
    }
  }

  lemma {:induction false} ResetAllAt(b: Book, batch: seq<TimerNode>, clock: nat -> int, i: nat)
    requires i < |batch| && forall j, k | 0 <= j < k < |batch| :: batch[j].id != batch[k].id
    ensures var d := ResetAll(b, batch, clock); var e := batch[i];
      && (!e.repeat ==> e.id !in d.stored)
      && (e.repeat && (e.id !in b.stored || e.id in b.cancelled) ==>
            (e.id in d.stored <==> e.id in b.stored) && (e.id in d.stored ==> d.stored[e.id] == b.stored[e.id]))
      && (e.repeat && e.id in b.stored && e.id !in b.cancelled ==>
            e.id in d.stored && d.stored[e.id] == b.stored[e.id].(timer := clock(i) + IntervalMicros(e)))
  {
    var last := |batch| - 1;
    if i < last {
      ResetAllAt(b, batch[..last], clock, i);
      ResetAllElsewhere(b, batch[..last], clock, batch[last].id);
    } else {
      ResetAllElsewhere(b, batch[..last], clock, batch[i].id);
    }
  }

  /** What an expiry round leaves behind, for any callbacks: an expired one-shot timer is gone, a repeating one
      is at its reset time plus its interval unless some callback cancelled it, in which case it is gone, and any
      other timer is where the callbacks left it. */
  lemma RoundOutcome(b: Book, batch: seq<TimerNode>, callbacks: int -> seq<Action>, clock: nat -> int)
    requires WellKept(b) && Batch(b, batch)
    ensures var actions := Script(batch, callbacks);
      var c := PerformAll(b.(cancelled := {}), actions); var d := Round(b, batch, callbacks, clock);
      && (forall i | 0 <= i < |batch| && !batch[i].repeat :: batch[i].id !in d.stored)
      && (forall i | 0 <= i < |batch| && batch[i].repeat && Cancels(actions, batch[i].id) > 0 ::
            batch[i].id !in d.stored)
      && (forall i | 0 <= i < |batch| && batch[i].repeat && Cancels(actions, batch[i].id) == 0 ::
            batch[i].id in d.stored && d.stored[batch[i].id].timer == clock(i) + IntervalMicros(batch[i]))
      && (forall id | id in c.stored && (forall e | e in batch :: e.id != id) ::
            id in d.stored && d.stored[id] == c.stored[id])
      && (forall id | id in d.stored :: id in c.stored)
      && (forall id | id in b.stored && (forall e | e in batch :: e.id != id) && (forall a | a in actions :: !Targets(a, id)) ::
            id in d.stored && d.stored[id] == b.stored[id])
      && WellKept(d)
  {
    var b0 := b.(cancelled := {});
    var actions := Script(batch, callbacks);
    var c := PerformAll(b0, actions);
    var d := Round(b, batch, callbacks, clock);
    PerformAllKeeps(b0, actions);
    forall i | 0 <= i < |batch|
      ensures batch[i].id in c.stored <==> Cancels(actions, batch[i].id) == 0
      ensures batch[i].id in c.cancelled ==> Cancels(actions, batch[i].id) >= 2
      ensures !batch[i].repeat ==> batch[i].id !in d.stored
      ensures batch[i].repeat ==> (batch[i].id in d.stored <==> batch[i].id in c.stored)
      ensures batch[i].repeat && batch[i].id in c.stored ==>
        d.stored[batch[i].id] == c.stored[batch[i].id].(timer := clock(i) + IntervalMicros(batch[i]))
    {
      CancelledHowOften(b0, actions, batch[i].id);
      ResetAllAt(c, batch, clock, i);
    }
    forall id | forall e | e in batch :: e.id != id
      ensures id in d.stored <==> id in c.stored
      ensures id in c.stored ==> d.stored[id] == c.stored[id]
    {
      ResetAllElsewhere(c, batch, clock, id);
    }
    forall id | id in b.stored && (forall a | a in actions :: !Targets(a, id))
      ensures id in c.stored && c.stored[id] == b.stored[id]
    {
      UntargetedKeeps(b0, actions, id);
    }
    RoundKeeps(c, batch, clock);
  }

  /** After the round a timer that a callback added is still as it was added, unless a later action concerned it: the
      batch was stored before. */
  lemma AddedTimerOutlivesRound(
      b: Book, batch: seq<TimerNode>, callbacks: int -> seq<Action>, clock: nat -> int, i: nat)
    requires WellKept(b) && Batch(b, batch)
    requires i < |Script(batch, callbacks)| && Script(batch, callbacks)[i].Add?
    requires var actions := Script(batch, callbacks);
      forall k | i < k < |actions| :: !Targets(actions[k], b.issued + Adds(actions[..i]) + 1)
    ensures var actions := Script(batch, callbacks); var id := b.issued + Adds(actions[..i]) + 1;
      var d := Round(b, batch, callbacks, clock);
      id in d.stored &&
      d.stored[id] == TimerNode(id, actions[i].delay / 1000000, actions[i].repeat, actions[i].now + actions[i].delay)
  {
    var actions := Script(batch, callbacks);
    AddedTimerIsStored(b.(cancelled := {}), actions, i);
    ResetAllElsewhere(Called(b, batch, callbacks), batch, clock, b.issued + Adds(actions[..i]) + 1);
  }

  /** After the round a timer outside the batch that no callback cancelled is later by exactly its extensions. */
  lemma ExtendedTimerOutlivesRound(
      b: Book, batch: seq<TimerNode>, callbacks: int -> seq<Action>, clock: nat -> int, id: int)
    requires WellKept(b) && Batch(b, batch) && id in b.stored && forall e | e in batch :: e.id != id
    requires Cancels(Script(batch, callbacks), id) == 0
    ensures var d := Round(b, batch, callbacks, clock);
      var (node, actions) := (b.stored[id], Script(batch, callbacks));
      id in d.stored &&
      d.stored[id] == TimerNode(id, node.interval, Repeats(actions, id, node.repeat),
                                node.timer + Extensions(actions, id, node.interval))
  {
    ExtensionsAddUp(b.(cancelled := {}), Script(batch, callbacks), id);
    ResetAllElsewhere(Called(b, batch, callbacks), batch, clock, id);
  }

  lemma {:induction false} RoundKeeps(c: Book, batch: seq<TimerNode>, clock: nat -> int)
    requires WellKept(c)
    ensures var d := ResetAll(c, batch, clock); WellKept(d) && d.stored.Keys <= c.stored.Keys && d.issued == c.issued
  {
    if batch != [] {
      RoundKeeps(c, batch[..|batch| - 1], clock);
    }
  }

  lemma {:induction false} NoAddsAddNothing(b: Book, actions: seq<Action>)
    requires NoAdds(actions)
    ensures PerformAll(b, actions).stored.Keys <= b.stored.Keys
  {
    if actions != [] {
      assert actions[|actions| - 1] in actions;
      NoAddsAddNothing(b, actions[..|actions| - 1]);
    }
  }

  /** A round whose callbacks add nothing leaves no timer, and then does not set the descriptor again, exactly when
      every stored timer was cancelled by a callback or is a one-shot timer of the batch. */
  lemma RoundEmptiesIff(b: Book, batch: seq<TimerNode>, callbacks: int -> seq<Action>, clock: nat -> int)
    requires WellKept(b) && Batch(b, batch) && NoAdds(Script(batch, callbacks))
    ensures Round(b, batch, callbacks, clock).stored == map[] <==>
      forall id | id in b.stored ::
        Cancels(Script(batch, callbacks), id) > 0 || (b.stored[id] in batch && !b.stored[id].repeat)
  {
    NothingNewAfterRound(b, batch, callbacks, clock);
    var left := Round(b, batch, callbacks, clock).stored;
    forall id | id in b.stored
      ensures id in left <==>
        Cancels(Script(batch, callbacks), id) == 0 && !(b.stored[id] in batch && !b.stored[id].repeat)
    {
      LeftAfterRound(b, batch, callbacks, clock, id);
    }
    assert left == map[] <==> left.Keys == {};
    if forall id | id in b.stored :: id !in left {
      assert left.Keys == {};
    }
  }

  lemma NothingNewAfterRound(b: Book, batch: seq<TimerNode>, callbacks: int -> seq<Action>, clock: nat -> int)
    requires WellKept(b) && NoAdds(Script(batch, callbacks))
    ensures Round(b, batch, callbacks, clock).stored.Keys <= b.stored.Keys
  {
    var b0 := b.(cancelled := {});
    PerformAllKeeps(b0, Script(batch, callbacks));
    RoundKeeps(PerformAll(b0, Script(batch, callbacks)), batch, clock);
    NoAddsAddNothing(b0, Script(batch, callbacks));
  }

  lemma LeftAfterRound(b: Book, batch: seq<TimerNode>, callbacks: int -> seq<Action>, clock: nat -> int, id: int)
    requires WellKept(b) && Batch(b, batch) && id in b.stored
    ensures id in Round(b, batch, callbacks, clock).stored <==>
      Cancels(Script(batch, callbacks), id) == 0 && !(b.stored[id] in batch && !b.stored[id].repeat)
  {
    var actions := Script(batch, callbacks);
    var c := PerformAll(b.(cancelled := {}), actions);
    CancelledHowOften(b.(cancelled := {}), actions, id);
    if b.stored[id] in batch {
      var i :| 0 <= i < |batch| && batch[i] == b.stored[id];
      ResetAllAt(c, batch, clock, i);
    } else {
      ResetAllElsewhere(c, batch, clock, id);
    }
  }

  /** The smallest case: one expired one-shot timer. */
  lemma LastTimerIsNotRearmed(node: TimerNode, clock: nat -> int)
    requires node.id == 1 && !node.repeat && node.interval >= 0
    ensures Round(Book(map[1 := node], {}, 1), [node], id => [], clock).stored == map[]
  {
    var b := Book(map[1 := node], {}, 1);
    var callbacks: int -> seq<Action> := id => [];
    assert Script([node][..0], callbacks) == [];
    assert Script([node], callbacks) == [];
    RoundEmptiesIff(b, [node], callbacks, clock);
  }

  // ---------------------------------------------------------------- the reset as written

  /** Lines 150-154 as they stand look the id up with `index_[id]`, which invents position 0 for an absent id. */
  function LookedUp(index: map<int, int>, id: int): map<int, int> {
    if id in index then index else index[id := 0]
  }

  /** That lookup ruins the index exactly when the id is absent. */
  lemma LookupKeepsIndexIff(h: seq<TimerNode>, index: map<int, int>, id: int)
    requires Bijection(h, index)
    ensures Bijection(h, LookedUp(index, id)) <==> id in index
  {
    if id !in index {
      assert id in LookedUp(index, id);
      if |h| > 0 {
        assert h[0].id in index;
      }
    }
  }

  ghost predicate ResetsPresentOnly(c: Book, batch: seq<TimerNode>) {
    forall e | e in batch && e.repeat && e.id !in c.cancelled :: e.id in c.stored
  }

  /** Over a whole round the text resets only present ids exactly when no repeating timer of the batch is
      cancelled exactly once: the first cancel finds the timer still in the heap and leaves no mark, and only a
      second one is recorded in the set that line 150 consults. */
  lemma RoundAsWrittenIff(b: Book, batch: seq<TimerNode>, callbacks: int -> seq<Action>)
    requires WellKept(b) && Batch(b, batch)
    ensures var actions := Script(batch, callbacks);
      ResetsPresentOnly(PerformAll(b.(cancelled := {}), actions), batch) <==>
      forall e | e in batch && e.repeat :: Cancels(actions, e.id) != 1
  {
    var b0 := b.(cancelled := {});
    var actions := Script(batch, callbacks);
    forall e | e in batch
      ensures e.id in PerformAll(b0, actions).stored <==> Cancels(actions, e.id) == 0
      ensures e.id in PerformAll(b0, actions).cancelled <==> Cancels(actions, e.id) >= 2
    {
      CancelledHowOften(b0, actions, e.id);
    }
  }

  // ---------------------------------------------------------------- the queue

  /** The timer descriptor: never armed, or set at `setAt` to become readable at `due`. handle_read_ does not
      read it, so it stays readable until it is set again. */
  datatype Armed = Never | At(due: int, setAt: int)

  predicate Readable(armed: Armed, now: int) {
    armed.At? && armed.due <= now
  }

  predicate NoAdds(actions: seq<Action>) {
    forall a | a in actions :: !a.Add?
  }

  ghost predicate NotStranded(h: seq<TimerNode>, armed: Armed) {
    |h| > 0 ==> armed.At? && (armed.due <= h[0].timer || armed.due <= armed.setAt + 100)
  }

  lemma ExtendKeeps(b: Book, micros: int, id: int, repeat: bool) returns (r: Book)
    requires WellKept(b) && id in b.stored
    ensures r == b.(stored := b.stored[id := Extended(b.stored[id], micros, repeat)])
    ensures r == Perform(b, Extend(micros, id, repeat)) && WellKept(r) && r.stored[id].timer >= b.stored[id].timer
  {
    r := Perform(b, Extend(micros, id, repeat));
  }

  /** No timer is new or earlier than it was. */
  ghost predicate NoneEarlier(before: map<int, TimerNode>, after: map<int, TimerNode>) {
    forall id | id in after :: id in before && after[id].timer >= before[id].timer
  }

  lemma StillNotStranded(
      h: seq<TimerNode>, index: map<int, int>, h': seq<TimerNode>, index': map<int, int>, armed: Armed)
    requires Bijection(h, index) && Ordered(h) && NotStranded(h, armed) && Bijection(h', index')
    requires NoneEarlier(Contents(h, index), Contents(h', index'))
    ensures NotStranded(h', armed)
  {
    if |h'| > 0 {
      var id := h'[0].id;
      assert id in Contents(h', index') && Contents(h', index')[id] == h'[0];
      FrontIsMinimumOfContents(h, index);
    }
  }

  /** No callback of the batch extends a timer of the batch. */
  ghost predicate LeavesBatch(batch: seq<TimerNode>, actions: seq<Action>) {
    forall a, e | a in actions && a.Extend? && e in batch :: a.target != e.id
  }

  lemma {:induction false} BatchKept(b: Book, batch: seq<TimerNode>, actions: seq<Action>, e: TimerNode)
    requires WellKept(b) && Batch(b, batch) && LeavesBatch(batch, actions) && e in batch
    ensures e.id in PerformAll(b, actions).stored ==> PerformAll(b, actions).stored[e.id] == e
  {
    if actions != [] {
      var rest := actions[..|actions| - 1];
      PerformAllKeeps(b, rest);
      BatchKept(b, batch, rest, e);
      StoredIdsWereIssued(b, rest, e.id);
      assert actions[|actions| - 1] in actions;
    }
  }

  lemma StoredIdsWereIssued(b: Book, actions: seq<Action>, id: int)
    requires WellKept(b) && id in b.stored
    ensures id <= PerformAll(b, actions).issued
  {
  }

  class TimerQueue {
    const LIMIT: nat := 1024
    const timerList: FourHeap
    var cancelSet: set<int>
    var pool: seq<int>
    var poolLimit: nat
    var poolIndex: nat
    var callingExpired: bool
    var armed: Armed

    ghost function Issued(): int
      reads this
    {
      poolLimit - |pool|
    }

    /** The pool holds the next ids in order. */
    ghost predicate PoolValid()
      reads this
    {
      && |pool| <= poolLimit && poolIndex == poolLimit
      && forall i | 0 <= i < |pool| :: pool[i] == Issued() + 1 + i
    }

    ghost predicate Consistent()
      reads this, timerList
    {
      PoolValid() && timerList.form.Intended? && timerList.Indexed() && WellKept(Abstract())
    }

    ghost predicate Valid()
      reads this, timerList
    {
      Consistent() && timerList.Valid() && NotStranded(timerList.heap, armed)
    }

    ghost function Abstract(): Book
      reads this, timerList
      requires PoolValid() && timerList.Indexed()
    {
      Book(timerList.Stored(), cancelSet, Issued())
    }

    /** The counters of the id pool are not initialised in the source; they start at 0. */
    constructor ()
      ensures Valid() && Abstract() == Book(map[], {}, 0) && !callingExpired && fresh(timerList)
    {
      timerList := new FourHeap(Intended);
      cancelSet, pool, poolLimit, poolIndex := {}, [], 0, 0;
      callingExpired, armed := false, Never;
    }

    /** Every id is issued once, counting up from 1. */
    method Get() returns (id: int)
      requires PoolValid()
      modifies this`pool, this`poolLimit, this`poolIndex
      ensures PoolValid() && Issued() == old(Issued()) + 1 && id == Issued()
    {
      if pool == [] {
        var i := 0;
        while i < LIMIT
          invariant i <= LIMIT && |pool| == i && Issued() == old(Issued()) && poolIndex == poolLimit
          invariant forall k | 0 <= k < |pool| :: pool[k] == Issued() + 1 + k
        {
          poolLimit := poolLimit + 1;
          poolIndex := poolIndex + 1;
          pool := pool + [poolLimit];
          i := i + 1;
        }
      }
      id := pool[0];
      pool := pool[1..];
    }

    method ResetTimerfd(expiration: TimerNode, now: int)
      modifies this`armed
      ensures armed == At(DueAt(expiration.timer, now), now)
    {
      var spec := TimeFromNow(expiration.timer, now);
      armed := At(now + spec.sec * MICROS_PER_SECOND + spec.nsec / 1000, now);
    }

    method AddTimerInLoop(node: TimerNode, now: int)
      requires Valid() && 0 < node.id <= Issued() && node.interval >= 0 && node.id !in Abstract().stored
      modifies this`armed, timerList
      ensures Valid()
      ensures Abstract() == old(Abstract()).(stored := old(Abstract()).stored[node.id := node])
    {
      if |timerList.heap| > 0 {
        FrontIsMinimumOfContents(timerList.heap, timerList.index);
      }
      timerList.Push(node);
      assert node.id in timerList.index;
      var front := timerList.Front();
      if node.timer <= front.timer {
        ResetTimerfd(node, now);
      }
    }

    /** add_timer called on the loop's own thread. */
    method AddTimer(micros: nat, repeat: bool, now: int) returns (id: int)
      requires Valid()
      modifies this`pool, this`poolLimit, this`poolIndex, this`armed, timerList
      ensures Valid() && id == Abstract().issued
      ensures Abstract() == Perform(old(Abstract()), Add(micros, repeat, now))
      ensures var node := TimerNode(id, micros / 1000000, repeat, now + micros);
        id == old(Abstract()).issued + 1 && Abstract().stored == old(Abstract()).stored[id := node]
    {
      id := Get();
      AddTimerInLoop(NewNode(id, micros, now, repeat), now);
    }

    method CancelTimerInLoop(id: int)
      requires Consistent()
      modifies this`cancelSet, timerList
      ensures Consistent() && (old(Valid()) ==> Valid()) && (old(timerList.Valid()) ==> timerList.Valid())
      ensures Abstract() == old(Abstract()).(
        stored := old(Abstract()).stored - {id},
        cancelled := old(cancelSet) + if callingExpired && id !in old(Abstract()).stored then {id} else {})
    {
      ghost var (h, index) := (timerList.heap, timerList.index);
      var found := timerList.Find(id);
      if found {
        var _ := timerList.Remove(id);
        if Ordered(h) && NotStranded(h, armed) {
          StillNotStranded(h, index, timerList.heap, timerList.index, armed);
        }
      } else if callingExpired {
        cancelSet := cancelSet + {id};
      }
    }

    method ExtendTimerInLoop(micros: int, id: int, repeat: bool)
      requires Valid()
      modifies timerList
      ensures Valid() && Abstract() == Perform(old(Abstract()), Extend(micros, id, repeat))
    {
      if |timerList.heap| > 0 {
        FrontIsMinimumOfContents(timerList.heap, timerList.index);
      }
      var found := timerList.Find(id);
      if found {
        ghost var r := ExtendKeeps(Abstract(), micros, id, repeat);
        timerList.Extend(micros, id, repeat);
        assert Abstract() == r;
      }
    }

    /** A callback acts on the queue through the loop it runs in. */
    method RunAction(a: Action)
      requires Valid() && callingExpired
      modifies this, timerList
      ensures Valid() && callingExpired
      ensures !a.Add? ==> armed == old(armed)
      ensures Abstract() == Perform(old(Abstract()), a)
    {
      match a
      case Add(delay, repeat, now) => var _ := AddTimer(delay, repeat, now);
      case Cancel(id) =>
        PerformCancel(Abstract(), id);
        CancelTimerInLoop(id);
      case Extend(micros, id, repeat) =>
        ExtendTimerInLoop(micros, id, repeat);
    }

    method RunCallback(actions: seq<Action>, ghost b: Book, ghost done: seq<Action>)
      requires Valid() && callingExpired && Abstract() == PerformAll(b, done)
      modifies this, timerList
      ensures Valid() && callingExpired
      ensures Abstract() == PerformAll(b, done + actions)
      ensures NoAdds(actions) ==> armed == old(armed)
    {
      assert done + actions[..0] == done;
      for i := 0 to |actions|
        invariant Valid() && callingExpired
        invariant Abstract() == PerformAll(b, done + actions[..i])
        invariant NoAdds(actions) ==> armed == old(armed)
      {
        PerformStep(b, done, actions, i);
        RunAction(actions[i]);
      }
      assert actions[..|actions|] == actions;
    }

    /** Lines 136-139: the callback of every timer of the batch runs once, in batch order. */
    method RunCallbacks(batch: seq<TimerNode>, callbacks: int -> seq<Action>) returns (ran: seq<int>)
      requires Valid() && callingExpired
      modifies this, timerList
      ensures Valid() && callingExpired
      ensures Abstract() == PerformAll(old(Abstract()), Script(batch, callbacks))
      ensures NoAdds(Script(batch, callbacks)) ==> armed == old(armed)
      ensures |ran| == |batch| && forall i | 0 <= i < |ran| :: ran[i] == batch[i].id
    {
      ran := [];
      ghost var b := Abstract();
      for i := 0 to |batch|
        invariant Valid() && callingExpired
        invariant Abstract() == PerformAll(b, Script(batch[..i], callbacks))
        invariant NoAdds(Script(batch[..i], callbacks)) ==> armed == old(armed)
        invariant |ran| == i && forall k | 0 <= k < i :: ran[k] == batch[k].id
      {
        ScriptStep(batch, i, callbacks);
        RunCallback(callbacks(batch[i].id), b, Script(batch[..i], callbacks));
        ran := ran + [batch[i].id];
      }
      assert batch[..|batch|] == batch;
    }

    /** Lines 152-154. */
    method ResetStored(e: TimerNode, now: int)
      requires Consistent() && e.repeat && e.id !in cancelSet && e.id in timerList.index
      modifies timerList
      ensures Consistent() && Abstract() == ResetOne(old(Abstract()), e, now)
      ensures old(timerList.Valid()) && NotEarlier(old(Abstract()), e, now) ==> timerList.Valid()
    {
      ghost var r := ResetOneStored(Abstract(), e, now);
      timerList.Reset(e.id, now + IntervalMicros(e));
      assert Abstract() == r;
    }

    /** Lines 150-159. A timer that a callback has removed is skipped, which repairs line 150. */
    method ResetEntry(e: TimerNode, now: int)
      requires Consistent() && !callingExpired
      modifies this`cancelSet, timerList
      ensures Consistent()
      ensures Abstract() == ResetOne(old(Abstract()), e, now)
      ensures old(timerList.Valid()) && NotEarlier(old(Abstract()), e, now) ==> timerList.Valid()
    {
      if e.repeat && e.id !in cancelSet {
        var found := timerList.Find(e.id);
        if found {
          ResetStored(e, now);
        }
      }
      if !e.repeat {
        CancelTimerInLoop(e.id);
      }
    }

    /** Lines 161-165. */
    method Rearm(now: int)
      requires timerList.Indexed()
      modifies this`armed
      ensures NotStranded(timerList.heap, armed)
      ensures armed == if timerList.heap == [] then old(armed) else At(DueAt(timerList.heap[0].timer, now), now)
    {
      var empty := timerList.Empty();
      if !empty {
        var front := timerList.Front();
        ResetTimerfd(front, now);
      }
    }

    /** reset_: the batch, then the descriptor. */
    method Reset(batch: seq<TimerNode>, clock: nat -> int, now: int)
      requires Consistent() && timerList.Valid() && !callingExpired
      requires forall i, j | 0 <= i < j < |batch| :: batch[i].id != batch[j].id
      modifies this`cancelSet, this`armed, timerList
      ensures Consistent() && NotStranded(timerList.heap, armed)
      ensures armed == if timerList.heap == [] then old(armed) else At(DueAt(timerList.heap[0].timer, now), now)
      ensures Abstract() == ResetAll(old(Abstract()), batch, clock)
      ensures Lengthens(old(Abstract()), batch, clock) ==> Valid()
    {
      ghost var b := Abstract();
      for i := 0 to |batch|
        invariant Consistent() && armed == old(armed)
        invariant Abstract() == ResetAll(b, batch[..i], clock)
        invariant Lengthens(b, batch, clock) ==> timerList.Valid()
      {
        ResetStep(b, batch, clock, i);
        ResetEntry(batch[i], clock(i));
      }
      assert batch[..|batch|] == batch;
      Rearm(now);
    }

    method GetExpired(ts: int) returns (batch: seq<TimerNode>)
      requires Valid()
      ensures Sorted(batch) && Batch(Abstract(), batch)
      ensures forall id | id in Abstract().stored :: Abstract().stored[id].timer <= ts <==> Abstract().stored[id] in batch
      ensures forall e | e in batch :: e.timer <= ts
    {
      batch := timerList.GetK(ts);
      BatchOfHeap(timerList.heap, timerList.index, batch, ts);
    }

    /** Lines 134-140. */
    method CallExpired(batch: seq<TimerNode>, callbacks: int -> seq<Action>) returns (ran: seq<int>)
      requires Valid()
      modifies this, timerList
      ensures Valid() && !callingExpired
      ensures Abstract() == Called(old(Abstract()), batch, callbacks)
      ensures NoAdds(Script(batch, callbacks)) ==> armed == old(armed)
      ensures |ran| == |batch| && forall i | 0 <= i < |ran| :: ran[i] == batch[i].id
    {
      callingExpired := true;
      cancelSet := {};
      assert Abstract() == old(Abstract()).(cancelled := {});
      ran := RunCallbacks(batch, callbacks);
      callingExpired := false;
    }

    /** Lines 134-142. */
    method RunRound(batch: seq<TimerNode>, callbacks: int -> seq<Action>, clock: nat -> int, now: int)
      returns (ran: seq<int>)
      requires Valid() && Batch(Abstract(), batch)
      modifies this, timerList
      ensures Consistent() && !callingExpired && NotStranded(timerList.heap, armed)
      ensures Abstract() == Round(old(Abstract()), batch, callbacks, clock)
      ensures |ran| == |batch| && forall i | 0 <= i < |ran| :: ran[i] == batch[i].id
      ensures timerList.heap != [] ==> armed == At(DueAt(timerList.heap[0].timer, now), now)
      ensures NoAdds(Script(batch, callbacks)) && timerList.heap == [] ==> armed == old(armed)
      ensures Lengthens(Called(old(Abstract()), batch, callbacks), batch, clock) ==> Valid()
    {
      ran := CallExpired(batch, callbacks);
      Reset(batch, clock, now);
    }

    /** handle_read_: one expiry round at time `ts`. The outcome is spelled out by RoundOutcome. The descriptor is
        set again only when a timer is left; RoundEmptiesIff says when none is. */
    method HandleRead(ts: int, callbacks: int -> seq<Action>, clock: nat -> int, now: int)
      returns (expired: seq<TimerNode>, ran: seq<int>)
      requires Valid()
      modifies this, timerList
      ensures Sorted(expired) && Batch(old(Abstract()), expired)
      ensures forall id | id in old(Abstract()).stored ::
        old(Abstract()).stored[id].timer <= ts <==> old(Abstract()).stored[id] in expired
      ensures |ran| == |expired| && forall i | 0 <= i < |ran| :: ran[i] == expired[i].id
      ensures Consistent() && !callingExpired && NotStranded(timerList.heap, armed)
      ensures Abstract() == Round(old(Abstract()), expired, callbacks, clock)
      ensures timerList.heap != [] ==> armed == At(DueAt(timerList.heap[0].timer, now), now)
      ensures NoAdds(Script(expired, callbacks)) && Readable(old(armed), now) ==>
        (Readable(armed, now) <==> Abstract().stored == map[])
      ensures Lengthens(Called(old(Abstract()), expired, callbacks), expired, clock) ==> Valid()
    {
      expired := GetExpired(ts);
      ran := RunRound(expired, callbacks, clock, now);
      EmptyHeapStoresNothing(timerList.heap, timerList.index);
    }
  }

  lemma EmptyHeapStoresNothing(h: seq<TimerNode>, index: map<int, int>)
    requires Bijection(h, index)
    ensures h == [] <==> Contents(h, index) == map[]
  {
    if |h| > 0 {
      assert h[0].id in index && h[0].id in Contents(h, index);
    }
  }

  ghost predicate NotEarlier(c: Book, e: TimerNode, now: int) {
    e.repeat && e.id in c.stored ==> c.stored[e.id].timer <= now + IntervalMicros(e)
  }

  lemma ResetOneStored(b: Book, e: TimerNode, now: int) returns (r: Book)
    requires WellKept(b) && e.repeat && e.id !in b.cancelled && e.id in b.stored
    ensures r == b.(stored := b.stored[e.id := b.stored[e.id].(timer := now + IntervalMicros(e))])
    ensures WellKept(r) && r == ResetOne(b, e, now)
  {
    r := ResetOne(b, e, now);
  }

  lemma ScriptStep(batch: seq<TimerNode>, i: nat, callbacks: int -> seq<Action>)
    requires i < |batch|
    ensures Script(batch[..i + 1], callbacks) == Script(batch[..i], callbacks) + callbacks(batch[i].id)
    ensures NoAdds(Script(batch[..i + 1], callbacks)) ==> NoAdds(Script(batch[..i], callbacks)) && NoAdds(callbacks(batch[i].id))
  {
    assert batch[..i + 1][..i] == batch[..i];
  }

  lemma PerformStep(b: Book, done: seq<Action>, actions: seq<Action>, i: nat)
    requires i < |actions|
    ensures PerformAll(b, done + actions[..i + 1]) == Perform(PerformAll(b, done + actions[..i]), actions[i])
  {
    assert (done + actions[..i + 1])[..|done| + i] == done + actions[..i];
  }

  lemma ResetStep(b: Book, batch: seq<TimerNode>, clock: nat -> int, i: nat)
    requires i < |batch| && forall j, k | 0 <= j < k < |batch| :: batch[j].id != batch[k].id
    ensures ResetAll(b, batch[..i + 1], clock) == ResetOne(ResetAll(b, batch[..i], clock), batch[i], clock(i))
    ensures Lengthens(b, batch, clock) ==> NotEarlier(ResetAll(b, batch[..i], clock), batch[i], clock(i))
  {
    assert batch[..i + 1][..i] == batch[..i];
    ResetAllElsewhere(b, batch[..i], clock, batch[i].id);
  }

  ghost predicate Lengthens(c: Book, batch: seq<TimerNode>, clock: nat -> int) {
    forall i | 0 <= i < |batch| && batch[i].repeat && batch[i].id in c.stored ::
      c.stored[batch[i].id].timer <= clock(i) + IntervalMicros(batch[i])
  }

  lemma CountedTwice(s: seq<TimerNode>, i: nat, j: nat)
    requires i < j < |s|
    ensures s[i] == s[j] ==> multiset(s)[s[i]] >= 2
  {
    assert s == s[..j] + s[j..];
    assert s[..j][i] == s[i] && s[j..][0] == s[j];
    assert multiset(s) == multiset(s[..j]) + multiset(s[j..]);
  }

  lemma BatchOfHeap(h: seq<TimerNode>, index: map<int, int>, batch: seq<TimerNode>, ts: int)
    requires Bijection(h, index)
    requires forall x :: multiset(batch)[x] == if x in h && x.timer <= ts then 1 else 0
    ensures forall i, j | 0 <= i < j < |batch| :: batch[i].id != batch[j].id
    ensures forall e | e in batch :: e.id in index && h[index[e.id]] == e && e.timer <= ts
    ensures forall id | id in index :: h[index[id]].timer <= ts <==> h[index[id]] in batch
  {
    forall e | e in batch
      ensures e in h && e.timer <= ts && e.id in index && h[index[e.id]] == e
    {
      assert multiset(batch)[e] == 1;
    }
    forall i, j | 0 <= i < j < |batch|
      ensures batch[i].id != batch[j].id
    {
      assert batch[i] in batch && batch[j] in batch;
      CountedTwice(batch, i, j);
    }
    forall id | id in index
      ensures h[index[id]].timer <= ts <==> h[index[id]] in batch
    {
      var x := h[index[id]];
      assert multiset(batch)[x] == if x in h && x.timer <= ts then 1 else 0;
    }
  }

  /** When no callback extends a timer of the batch, and clocks do not run back, the resets only lengthen. */
  lemma RoundLengthens(b: Book, batch: seq<TimerNode>, callbacks: int -> seq<Action>, clock: nat -> int, ts: int)
    requires WellKept(b) && Batch(b, batch)
    requires forall e | e in batch :: e.timer <= ts
    requires forall i: nat :: clock(i) >= ts
    ensures LeavesBatch(batch, Script(batch, callbacks)) ==> Lengthens(Called(b, batch, callbacks), batch, clock)
  {
    var c := Called(b, batch, callbacks);
    forall i | LeavesBatch(batch, Script(batch, callbacks)) && 0 <= i < |batch| && batch[i].id in c.stored
      ensures c.stored[batch[i].id].timer <= clock(i) + IntervalMicros(batch[i])
    {
      BatchKept(b.(cancelled := {}), batch, Script(batch, callbacks), batch[i]);
      assert b.stored[batch[i].id] == batch[i];
    }
  }

  /** When one does, the reset may move the deadline back behind a later parent: a timer of one second that its
      callback extends by ten, beside one due in five. */
  lemma ShortenedTimerStaysBehind()
    ensures var (a, b) := (TimerNode(1, 1, true, 0), TimerNode(2, 0, false, 5000000));
      var extended := SiftedDown(Intended, [Extended(a, 10000000, true), b], 0);
      var reset := SiftedDown(Intended, extended[1 := extended[1].(timer := 1000000)], 1);
      && Ordered([a, b]) && Ordered(extended) && extended[1].id == 1
      && !Ordered(reset) && reset[0].timer > reset[1].timer
  {
    var (a, b) := (TimerNode(1, 1, true, 0), TimerNode(2, 0, false, 5000000));
    var h := [Extended(a, 10000000, true), b];
    assert MinChild(Intended, h, 0) == 1;
    var extended := Swapped(h, 0, 1);
    assert extended == [b, h[0]] && MinChild(Intended, extended, 1) == -1;
    assert SiftedDown(Intended, h, 0) == SiftedDown(Intended, extended, 1) == extended;
    var reset := extended[1 := extended[1].(timer := 1000000)];
    assert MinChild(Intended, reset, 1) == -1;
    assert Parent(1) == 0 && !Edge(reset, 1);
  }
}
