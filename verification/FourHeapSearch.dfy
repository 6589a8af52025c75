/** get_k (src/base/four_heap.cc:170-198) as the text stands: the queue is max-first and the children of a slot
    are looked up four times nearer the root instead of four times further. The loop is a relation over its
    states, because the order of equal deadlines inside the queue is open and the loop need not end. */
module FourHeapSearch {
  import opened TimerNodes
  import opened FourHeaps

  /** The queue and the result hold heap positions. */
  datatype Search = Search(queue: multiset<nat>, found: seq<nat>, stopped: bool)

  function PushedFrom(n: nat, c: nat, last: nat): (r: multiset<nat>)
    ensures forall p :: r[p] == if c <= p <= last && p < n then 1 else 0
    decreases last + 1 - c
  {
    if c > last || c >= n then multiset{} else multiset{c} + PushedFrom(n, c + 1, last)
  }

  function Start(h: seq<TimerNode>): Search {
    if |h| == 0 then Search(multiset{}, [], true) else Search(multiset{0}, [], false)
  }

  /** Lines 184-195 for the popped position `p`. */
  function Visit(h: seq<TimerNode>, ts: int, s: Search, p: nat): Search
    requires p < |h|
  {
    if h[p].timer > ts then Search(s.queue - multiset{p}, s.found, true)
    else
      var top := p / 4;
      Search(s.queue - multiset{p} + PushedFrom(|h|, top + 1, top + 4), s.found + [p], false)
  }

  ghost predicate Latest(h: seq<TimerNode>, q: multiset<nat>, p: nat) {
    && p in q && p < |h|
    && forall r | r in q :: r < |h| && h[r].timer <= h[p].timer
  }

  ghost predicate Step(h: seq<TimerNode>, ts: int, s: Search, s': Search) {
    && !s.stopped
    && if |s.queue| == 0 then s' == s.(stopped := true)
       else exists p: nat :: Latest(h, s.queue, p) && s' == Visit(h, ts, s, p)
  }

  ghost predicate Run(h: seq<TimerNode>, ts: int, run: seq<Search>) {
    && |run| > 0 && run[0] == Start(h)
    && forall i | 0 < i < |run| :: Step(h, ts, run[i - 1], run[i])
  }

  ghost predicate Right(h: seq<TimerNode>, ts: int, found: seq<nat>) {
    forall p: nat :: multiset(found)[p] == if p < |h| && h[p].timer <= ts then 1 else 0
  }

  /** However equal deadlines are ordered, the loop ends and answers the expired timers, each once. The bound on its
      length excludes no right answer: RightRunsAreShort. */
  ghost predicate AlwaysRight(h: seq<TimerNode>, ts: int) {
    forall run: seq<Search> | Run(h, ts, run) ::
      |run| <= |h| + 2 && (run[|run| - 1].stopped ==> Right(h, ts, run[|run| - 1].found))
  }

  /** On any heap, also one that the literal operations left out of order, the text is right exactly when no timer
      below the root has expired. */
  lemma GetKIsRightIff(h: seq<TimerNode>, ts: int)
    ensures AlwaysRight(h, ts) <==> forall p | 1 <= p < |h| :: h[p].timer > ts
  {
    if forall p | 1 <= p < |h| :: h[p].timer > ts {
      forall run: seq<Search> | Run(h, ts, run)
        ensures |run| <= |h| + 2 && (run[|run| - 1].stopped ==> Right(h, ts, run[|run| - 1].found))
      {
        ShortRun(h, ts, run);
      }
    } else {
      var e :| 1 <= e < |h| && h[e].timer <= ts;
      WrongRun(h, ts, e);
    }
  }

  /** The state after the root has been visited. */
  function Opened(h: seq<TimerNode>): Search {
    Search(PushedFrom(|h|, 1, 4), [0], false)
  }

  lemma FirstStep(h: seq<TimerNode>, ts: int, s: Search)
    requires Step(h, ts, Start(h), s)
    ensures |h| > 0
    ensures s == if h[0].timer > ts then Search(multiset{}, [], true) else Opened(h)
  {
  }

  lemma SecondStep(h: seq<TimerNode>, ts: int, s: Search)
    requires |h| > 0 && Step(h, ts, Opened(h), s)
    requires forall p | 1 <= p < |h| :: h[p].timer > ts
    ensures s.stopped && s.found == [0]
  {
  }

  lemma RootOnly(h: seq<TimerNode>, ts: int)
    requires forall p | 1 <= p < |h| :: h[p].timer > ts
    ensures Right(h, ts, if |h| > 0 && h[0].timer <= ts then [0] else [])
  {
  }

  lemma OnlyTheLastStops(h: seq<TimerNode>, ts: int, run: seq<Search>)
    requires Run(h, ts, run)
    ensures forall i | 0 <= i < |run| - 1 :: !run[i].stopped
  {
    forall i | 0 <= i < |run| - 1
      ensures !run[i].stopped
    {
      assert Step(h, ts, run[i + 1 - 1], run[i + 1]);
    }
  }

  /** Every step but the last finds one timer. */
  lemma {:induction false} FoundGrows(h: seq<TimerNode>, ts: int, run: seq<Search>, i: nat)
    requires Run(h, ts, run) && i < |run|
    ensures if !run[i].stopped then |run[i].found| == i else i == 0 || |run[i].found| == i - 1
  {
    if i > 0 {
      FoundGrows(h, ts, run, i - 1);
      assert Step(h, ts, run[i - 1], run[i]);
    }
  }

  lemma FewPositions(n: nat, found: seq<nat>)
    requires forall p: nat :: multiset(found)[p] <= if p < n then 1 else 0
    ensures |found| <= n
  {
    var all := seq(n, i requires 0 <= i < n => i as nat);
    forall p: nat
      ensures multiset(found)[p] <= multiset(all)[p]
    {
      if p < n {
        assert all[p] == p && p in multiset(all);
      }
    }
    assert multiset(all) == multiset(found) + (multiset(all) - multiset(found));
  }

  /** A run that stops with the right answer takes at most two states more than there are timers, whatever the heap. */
  lemma RightRunsAreShort(h: seq<TimerNode>, ts: int, run: seq<Search>)
    requires Run(h, ts, run) && run[|run| - 1].stopped && Right(h, ts, run[|run| - 1].found)
    ensures |run| <= |h| + 2
  {
    FoundGrows(h, ts, run, |run| - 1);
    FewPositions(|h|, run[|run| - 1].found);
  }

  lemma ShortRun(h: seq<TimerNode>, ts: int, run: seq<Search>)
    requires Run(h, ts, run)
    requires forall p | 1 <= p < |h| :: h[p].timer > ts
    ensures |run| <= |h| + 2
    ensures run[|run| - 1].stopped ==> Right(h, ts, run[|run| - 1].found)
  {
    RootOnly(h, ts);
    OnlyTheLastStops(h, ts, run);
    if |run| > 1 {
      assert Step(h, ts, run[0], run[1]);
      FirstStep(h, ts, run[1]);
      if |run| > 2 {
        assert Step(h, ts, run[1], run[2]);
        SecondStep(h, ts, run[2]);
      }
    }
  }

  lemma {:induction false} LatestExists(h: seq<TimerNode>, q: multiset<nat>) returns (p: nat)
    requires |q| > 0 && forall r | r in q :: r < |h|
    ensures Latest(h, q, p)
    decreases |q|
  {
    p :| p in q;
    var rest := q - multiset{p};
    assert forall r | r in q && r != p :: r in rest;
    if |rest| > 0 {
      var r := LatestExists(h, rest);
      p := if h[r].timer > h[p].timer then r else p;
    }
  }

  lemma OpenedRun(h: seq<TimerNode>, ts: int)
    requires |h| > 0 && h[0].timer <= ts
    ensures Run(h, ts, [Start(h), Opened(h)])
  {
    var s := Start(h);
    assert Latest(h, s.queue, 0);
    assert multiset{0} - multiset{0} + PushedFrom(|h|, 1, 4) == PushedFrom(|h|, 1, 4);
    assert Visit(h, ts, s, 0) == Opened(h);
    assert Step(h, ts, s, Opened(h));
  }

  lemma ExtendRun(h: seq<TimerNode>, ts: int, run: seq<Search>, p: nat) returns (longer: seq<Search>)
    requires Run(h, ts, run) && !run[|run| - 1].stopped && Latest(h, run[|run| - 1].queue, p)
    ensures Run(h, ts, longer) && |longer| == |run| + 1
    ensures longer[|run|] == Visit(h, ts, run[|run| - 1], p)
  {
    longer := run + [Visit(h, ts, run[|run| - 1], p)];
    forall i | 0 < i < |longer|
      ensures Step(h, ts, longer[i - 1], longer[i])
    {
      if i < |run| {
        assert Step(h, ts, run[i - 1], run[i]);
      }
    }
  }

  lemma MissesOne(h: seq<TimerNode>, ts: int, run: seq<Search>, e: nat)
    requires Run(h, ts, run) && run[|run| - 1].stopped
    requires e < |h| && h[e].timer <= ts && e !in run[|run| - 1].found
    ensures !AlwaysRight(h, ts)
  {
  }

  lemma TooLong(h: seq<TimerNode>, ts: int, run: seq<Search>)
    requires Run(h, ts, run) && |run| > |h| + 2
    ensures !AlwaysRight(h, ts)
  {
  }

  /** A slot below the root that has not expired hides the expired ones. */
  lemma StopsAtOnce(h: seq<TimerNode>, ts: int, e: nat, c: nat)
    requires |h| > 0 && h[0].timer <= ts && 1 <= e < |h| && h[e].timer <= ts
    requires Latest(h, Opened(h).queue, c) && h[c].timer > ts
    ensures !AlwaysRight(h, ts)
  {
    OpenedRun(h, ts);
    var run := ExtendRun(h, ts, [Start(h), Opened(h)], c);
    MissesOne(h, ts, run, e);
  }

  lemma GoesOnForever(h: seq<TimerNode>, ts: int, c: nat)
    requires |h| > 1 && h[0].timer <= ts && 1 <= c <= 4 && c < |h|
    requires forall p | 1 <= p <= 4 && p < |h| :: h[p].timer <= h[c].timer <= ts
    requires |h| <= 5 || h[5].timer <= ts || c <= 3
    ensures !AlwaysRight(h, ts)
  {
    if c <= 3 {
      var run := RepeatingRun(h, ts, c, |h|);
      TooLong(h, ts, run);
    } else {
      var run := CirclingRun(h, ts, |h|);
      TooLong(h, ts, run);
    }
  }

  /** A wrong answer, or a run longer than any right one. */
  lemma WrongRun(h: seq<TimerNode>, ts: int, e: nat)
    requires 1 <= e < |h| && h[e].timer <= ts
    ensures !AlwaysRight(h, ts)
  {
    if h[0].timer > ts {
      StopsAtTheRoot(h, ts, e);
    } else {
      WrongBelowTheRoot(h, ts, e);
    }
  }

  /** A root that has not expired hides the expired ones. */
  lemma StopsAtTheRoot(h: seq<TimerNode>, ts: int, e: nat)
    requires 1 <= e < |h| && h[e].timer <= ts < h[0].timer
    ensures !AlwaysRight(h, ts)
  {
    assert Latest(h, Start(h).queue, 0);
    var run := ExtendRun(h, ts, [Start(h)], 0);
    MissesOne(h, ts, run, e);
  }

  lemma WrongBelowTheRoot(h: seq<TimerNode>, ts: int, e: nat)
    requires 1 <= e < |h| && h[e].timer <= ts && h[0].timer <= ts
    ensures !AlwaysRight(h, ts)
  {
    var slots := Opened(h).queue;
    assert forall p | 1 <= p <= 4 && p < |h| :: p in slots;
    assert 1 in slots;
    var c := LatestExists(h, slots);
    if h[c].timer > ts {
      StopsAtOnce(h, ts, e, c);
    } else if |h| <= 5 || h[5].timer <= ts || c <= 3 {
      GoesOnForever(h, ts, c);
    } else {
      StopsAtFive(h, ts);
    }
  }

  ghost predicate Among(h: seq<TimerNode>, s: Search, last: nat) {
    !s.stopped && forall p | p in s.queue :: 1 <= p <= last && p < |h|
  }

  lemma CirclingStep(h: seq<TimerNode>, ts: int, s: Search, p: nat)
    requires Among(h, s, 5) && p in s.queue && h[p].timer <= ts
    ensures Among(h, Visit(h, ts, s, p), 5) && p / 4 + 1 in Visit(h, ts, s, p).queue
  {
  }

  lemma CirclingMore(h: seq<TimerNode>, ts: int, run: seq<Search>) returns (longer: seq<Search>)
    requires Run(h, ts, run) && Among(h, run[|run| - 1], 5) && |run[|run| - 1].queue| > 0
    requires forall p | 1 <= p <= 5 && p < |h| :: h[p].timer <= ts
    ensures Run(h, ts, longer) && |longer| == |run| + 1
    ensures Among(h, longer[|run|], 5) && |longer[|run|].queue| > 0
  {
    var s := run[|run| - 1];
    var p := LatestExists(h, s.queue);
    CirclingStep(h, ts, s, p);
    longer := ExtendRun(h, ts, run, p);
  }

  /** All of slots 1..5 expired: every pop pushes at least one of them back. */
  lemma {:induction false} CirclingRun(h: seq<TimerNode>, ts: int, extra: nat) returns (run: seq<Search>)
    requires |h| > 1 && h[0].timer <= ts
    requires forall p | 1 <= p <= 5 && p < |h| :: h[p].timer <= ts
    ensures Run(h, ts, run) && |run| == extra + 3
    ensures Among(h, run[extra + 2], 5) && |run[extra + 2].queue| > 0
  {
    if extra == 0 {
      OpenedRun(h, ts);
      run := [Start(h), Opened(h)];
      assert 1 in Opened(h).queue;
    } else {
      run := CirclingRun(h, ts, extra - 1);
    }
    run := CirclingMore(h, ts, run);
  }

  lemma RepeatingStep(h: seq<TimerNode>, ts: int, c: nat, s: Search)
    requires 1 <= c <= 3 && Among(h, s, 4) && c in s.queue && h[c].timer <= ts
    ensures Among(h, Visit(h, ts, s, c), 4) && c in Visit(h, ts, s, c).queue
  {
  }

  /** The latest of slots 1..4 is one of 1..3: popping it pushes it back, for ever. */
  lemma {:induction false} RepeatingRun(h: seq<TimerNode>, ts: int, c: nat, extra: nat) returns (run: seq<Search>)
    requires |h| > 1 && h[0].timer <= ts && 1 <= c <= 3 && c < |h|
    requires forall p | 1 <= p <= 4 && p < |h| :: h[p].timer <= h[c].timer <= ts
    ensures Run(h, ts, run) && |run| == extra + 3
    ensures Among(h, run[extra + 2], 4) && c in run[extra + 2].queue
  {
    if extra == 0 {
      OpenedRun(h, ts);
      run := [Start(h), Opened(h)];
    } else {
      run := RepeatingRun(h, ts, c, extra - 1);
    }
    var s := run[extra + 1];
    assert Latest(h, s.queue, c);
    RepeatingStep(h, ts, c, s);
    run := ExtendRun(h, ts, run, c);
  }

  /** Slot 4 is the latest of 1..4 and slot 5 has not expired: the loop stops without slot 1. */
  lemma StopsAtFive(h: seq<TimerNode>, ts: int)
    requires |h| > 5 && h[0].timer <= ts && h[5].timer > ts
    requires forall p | 1 <= p <= 4 :: h[p].timer <= h[4].timer <= ts
    ensures !AlwaysRight(h, ts)
  {
    OpenedRun(h, ts);
    assert Latest(h, Opened(h).queue, 4);
    var run := ExtendRun(h, ts, [Start(h), Opened(h)], 4);
    assert PushedFrom(|h|, 2, 5)[5] == 1;
    assert Latest(h, run[2].queue, 5);
    run := ExtendRun(h, ts, run, 5);
    MissesOne(h, ts, run, 1);
  }

  /** As written, no run ever looks beyond slot 5, however many timers are stored. */
  lemma {:induction false} SearchStaysInSixSlots(h: seq<TimerNode>, ts: int, run: seq<Search>, i: nat)
    requires Run(h, ts, run) && i < |run|
    ensures forall p | p in run[i].queue || p in run[i].found :: p <= 5
  {
    if i > 0 {
      SearchStaysInSixSlots(h, ts, run, i - 1);
      assert Step(h, ts, run[i - 1], run[i]);
    }
  }
}
