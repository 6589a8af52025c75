/** src/base/four_heap.cc: a vector heap with four children per node and a map from timer id to position.

    The index arithmetic of the source departs from its evident intent in four places. `Form` selects
    the text as it stands or the text as it was meant, in one body, so that both can be stated and compared:
      - lines 31 and 52, `pos << 2 + 1` parses as `pos << 3`; the first child is meant to be `4 * pos + 1`;
      - line 73, sift-up recomputes the parent from `pos` where `i` is meant, so it climbs one level;
      - lines 139-140, pop swaps the root with the last slot and then removes the last slot, so nothing
        sifts the new root; `destory_(0)` is meant. */
module FourHeaps {
  import opened SourceForm
  import opened TimerNodes

  // ---------------------------------------------------------------- positions

  function FirstChild(form: Form, pos: nat): nat {
    if form.AsWritten? then pos * 8 else pos * 4 + 1
  }

  function Parent(pos: nat): nat
    requires pos > 0
  {
    (pos - 1) / 4
  }

  /** Line 63 in machine arithmetic: a 64-bit unsigned decrement and shift narrowed to a 32-bit int. */
  function ParentOfArgument(pos: nat): int
    requires pos < 0x8000_0000
  {
    var shifted := ((pos - 1) % 0x1_0000_0000_0000_0000) / 4;
    var low := shifted % 0x1_0000_0000;
    if low >= 0x8000_0000 then low - 0x1_0000_0000 else low
  }

  /** The wrap at the root is harmless: it narrows to -1 and the sift-up loop is not entered. */
  lemma ParentOfArgumentMeaning(pos: nat)
    requires pos < 0x8000_0000
    ensures ParentOfArgument(pos) == if pos == 0 then -1 else Parent(pos)
  {
  }

  // ---------------------------------------------------------------- heap order

  ghost predicate Edge(h: seq<TimerNode>, k: nat)
    requires 0 < k < |h|
  {
    h[Parent(k)].timer <= h[k].timer
  }

  ghost predicate Ordered(h: seq<TimerNode>) {
    forall k | 0 < k < |h| :: Edge(h, k)
  }

  /** What order buys: the front is a minimum. */
  lemma {:induction false} FrontIsMinimum(h: seq<TimerNode>, k: nat)
    requires Ordered(h) && k < |h|
    ensures h[0].timer <= h[k].timer
  {
    if k > 0 {
      assert Edge(h, k);
      FrontIsMinimum(h, Parent(k));
    }
  }

  function Swapped(h: seq<TimerNode>, i: nat, j: nat): seq<TimerNode>
    requires i < |h| && j < |h|
  {
    h[i := h[j]][j := h[i]]
  }

  // ---------------------------------------------------------------- sift-down

  /** The scan of lines 38-45: the first strictly smallest slot of `[k, hi)` below the current best. */
  function Scan(h: seq<TimerNode>, pos: nat, k: nat, hi: nat, best: int): int
    requires pos < |h| && hi <= |h| && best < |h|
    decreases hi - k
  {
    if k >= hi then best
    else
      var mini := h[if best < 0 then pos else best].timer;
      Scan(h, pos, k + 1, hi, if mini > h[k].timer then k else best)
  }

  lemma {:induction false} ScanPicks(h: seq<TimerNode>, pos: nat, k: nat, hi: nat, best: int)
    requires pos < |h| && k <= hi <= |h| && -1 <= best < |h|
    requires best >= 0 ==> h[best].timer < h[pos].timer
    ensures var m := Scan(h, pos, k, hi, best);
      && (m == best || k <= m < hi)
      && (m == -1 ==> forall c | k <= c < hi :: h[pos].timer <= h[c].timer)
      && (m >= 0 ==> h[m].timer < h[pos].timer && (forall c | k <= c < hi :: h[m].timer <= h[c].timer))
      && (m >= 0 && best >= 0 ==> h[m].timer <= h[best].timer)
    decreases hi - k
  {
    if k < hi {
      var mini := h[if best < 0 then pos else best].timer;
      ScanPicks(h, pos, k + 1, hi, if mini > h[k].timer then k else best);
    }
  }

  function WindowEnd(form: Form, n: nat, pos: nat): nat {
    var j := FirstChild(form, pos);
    if j + 4 <= n then j + 4 else n
  }

  /** The slot the node at `pos` is exchanged with, or -1 when it stays. */
  function MinChild(form: Form, h: seq<TimerNode>, pos: nat): int
    requires pos < |h|
  {
    if FirstChild(form, pos) >= |h| then -1
    else Scan(h, pos, FirstChild(form, pos), WindowEnd(form, |h|, pos), -1)
  }

  lemma MinChildPicks(form: Form, h: seq<TimerNode>, pos: nat)
    requires pos < |h|
    ensures var m := MinChild(form, h, pos); var j := FirstChild(form, pos);
      && -1 <= m < |h|
      && (m == -1 <==> forall c | j <= c < j + 4 && c < |h| :: h[pos].timer <= h[c].timer)
      && (m >= 0 ==> pos < m && j <= m < j + 4 && h[m].timer < h[pos].timer)
      && (m >= 0 ==> forall c | j <= c < j + 4 && c < |h| :: h[m].timer <= h[c].timer)
  {
    var j := FirstChild(form, pos);
    if j < |h| {
      ScanPicks(h, pos, j, WindowEnd(form, |h|, pos), -1);
    }
  }

  function SiftedDown(form: Form, h: seq<TimerNode>, pos: nat): (r: seq<TimerNode>)
    requires pos < |h|
    ensures |r| == |h|
    ensures forall k | 0 <= k < pos :: r[k] == h[k]
    decreases |h| - pos
  {
    MinChildPicks(form, h, pos);
    var m := MinChild(form, h, pos);
    if m == -1 then h else SiftedDown(form, Swapped(h, pos, m), m)
  }

  /** Order everywhere but around `pos`, whose children stay above its parent. */
  ghost predicate OrderedAround(h: seq<TimerNode>, pos: nat)
    requires pos < |h|
  {
    && (forall k | 0 < k < |h| && k != pos && Parent(k) != pos :: Edge(h, k))
    && (pos > 0 ==> forall k | 0 < k < |h| && Parent(k) == pos :: h[Parent(pos)].timer <= h[k].timer)
  }

  /** Sift-down repairs everything below `pos` and nothing above it: the result is ordered exactly when the
      deadline at `pos` is not earlier than its parent's. */
  lemma {:induction false} SiftedDownOrdered(h: seq<TimerNode>, pos: nat)
    requires pos < |h| && OrderedAround(h, pos)
    ensures Ordered(SiftedDown(Intended, h, pos)) <==> (pos > 0 ==> Edge(h, pos))
    decreases |h| - pos
  {
    MinChildPicks(Intended, h, pos);
    var m := MinChild(Intended, h, pos);
    if m == -1 {
      forall k | 0 < k < |h| && Parent(k) == pos
        ensures Edge(h, k)
      {
        assert FirstChild(Intended, pos) <= k < FirstChild(Intended, pos) + 4;
      }
    } else {
      var g := Swapped(h, pos, m);
      assert Parent(m) == pos;
      SwapKeepsAround(h, pos, m);
      assert Edge(g, m);
      SiftedDownOrdered(g, m);
      if pos > 0 {
        assert h[Parent(pos)].timer <= h[m].timer;
      }
    }
  }

  lemma SwapKeepsAround(h: seq<TimerNode>, pos: nat, m: nat)
    requires pos < |h| && OrderedAround(h, pos)
    requires 0 < m < |h| && Parent(m) == pos && h[m].timer < h[pos].timer
    requires forall k | 0 < k < |h| && Parent(k) == pos :: h[m].timer <= h[k].timer
    ensures OrderedAround(Swapped(h, pos, m), m)
  {
  }

  // ---------------------------------------------------------------- sift-up

  function SiftedUp(form: Form, h: seq<TimerNode>, pos: nat): (r: seq<TimerNode>)
    requires pos < |h|
    ensures |r| == |h|
    decreases pos
  {
    if pos == 0 || h[Parent(pos)].timer <= h[pos].timer then h
    else if form.AsWritten? then Swapped(h, pos, Parent(pos))
    else SiftedUp(form, Swapped(h, pos, Parent(pos)), Parent(pos))
  }

  function ParentOrNone(pos: nat): (j: int)
    ensures -1 <= j && (j == -1 <==> pos == 0) && (pos > 0 ==> j == Parent(pos) < pos)
  {
    if pos == 0 then -1 else Parent(pos)
  }

  /** The loop of lines 65-75 after `cnt` exchanges: the node is at `i` and is next compared with `j`. */
  ghost predicate Climbing(form: Form, h0: seq<TimerNode>, pos: nat, h: seq<TimerNode>, i: nat, j: int, cnt: nat) {
    && pos < |h0| == |h| && i < |h| && -1 <= j < |h|
    && match form
       case Intended => j == ParentOrNone(i) && SiftedUp(form, h, i) == SiftedUp(form, h0, pos)
       case AsWritten =>
         if cnt == 0 then i == pos && h == h0 && j == ParentOrNone(pos)
         else pos > 0 && i == j == Parent(pos) && h == SiftedUp(form, h0, pos)
  }

  lemma ClimbStep(form: Form, h0: seq<TimerNode>, pos: nat, h: seq<TimerNode>, i: nat, j: nat, cnt: nat)
    requires Climbing(form, h0, pos, h, i, j, cnt) && h[i].timer < h[j].timer
    ensures Climbing(form, h0, pos, Swapped(h, i, j), j, if form.AsWritten? then ParentOrNone(pos) else ParentOrNone(j), cnt + 1)
    ensures j < i
  {
  }

  lemma ClimbStop(form: Form, h0: seq<TimerNode>, pos: nat, h: seq<TimerNode>, i: nat, j: int, cnt: nat)
    requires Climbing(form, h0, pos, h, i, j, cnt) && (j >= 0 ==> h[j].timer <= h[i].timer)
    ensures h == SiftedUp(form, h0, pos)
  {
  }

  ghost predicate OrderedBut(h: seq<TimerNode>, pos: nat)
    requires pos < |h|
  {
    && (forall k | 0 < k < |h| && k != pos :: Edge(h, k))
    && (pos > 0 ==> forall k | 0 < k < |h| && Parent(k) == pos :: h[Parent(pos)].timer <= h[k].timer)
  }

  lemma SwapUpKeepsBut(h: seq<TimerNode>, pos: nat)
    requires 0 < pos < |h| && OrderedBut(h, pos) && h[pos].timer < h[Parent(pos)].timer
    ensures OrderedBut(Swapped(h, pos, Parent(pos)), Parent(pos))
  {
    var q := Parent(pos);
    var g := Swapped(h, pos, q);
    forall k | 0 < k < |g| && k != q
      ensures Edge(g, k)
    {
      if k != pos {
        assert Edge(h, k);
      }
    }
    if q > 0 {
      assert Edge(h, q);
      forall k | 0 < k < |g| && Parent(k) == q
        ensures g[Parent(q)].timer <= g[k].timer
      {
        if k != pos {
          assert Edge(h, k);
        }
      }
    }
  }

  lemma {:induction false} SiftedUpOrdered(h: seq<TimerNode>, pos: nat)
    requires pos < |h| && OrderedBut(h, pos)
    ensures Ordered(SiftedUp(Intended, h, pos))
    decreases pos
  {
    if pos > 0 && h[pos].timer < h[Parent(pos)].timer {
      SwapUpKeepsBut(h, pos);
      SiftedUpOrdered(Swapped(h, pos, Parent(pos)), Parent(pos));
    } else {
      forall k | 0 < k < |h|
        ensures Edge(h, k)
      {
      }
    }
  }

  // ---------------------------------------------------------------- refitting one slot, removal, pop

  /** Lines 90-93 and 114-117: sift down, and up only when nothing moved down. */
  function Refitted(form: Form, h: seq<TimerNode>, pos: nat): (r: seq<TimerNode>)
    requires pos < |h|
    ensures |r| == |h|
  {
    if MinChild(form, h, pos) == -1 then SiftedUp(form, h, pos) else SiftedDown(form, h, pos)
  }

  /** Whatever is written into one slot of an ordered heap, refitting restores order. */
  lemma RefittedOrdered(h: seq<TimerNode>, pos: nat, x: TimerNode)
    requires Ordered(h) && pos < |h|
    ensures Ordered(Refitted(Intended, h[pos := x], pos))
  {
    var g := h[pos := x];
    SlotKeepsAround(h, pos, x);
    MinChildPicks(Intended, g, pos);
    var m := MinChild(Intended, g, pos);
    if m == -1 {
      forall k | 0 < k < |g| && k != pos
        ensures Edge(g, k)
      {
        if Parent(k) == pos {
          assert FirstChild(Intended, pos) <= k < FirstChild(Intended, pos) + 4;
        }
      }
      SiftedUpOrdered(g, pos);
    } else {
      assert Parent(m) == pos;
      SiftedDownOrdered(g, pos);
    }
  }

  lemma SlotKeepsAround(h: seq<TimerNode>, pos: nat, x: TimerNode)
    requires Ordered(h) && pos < |h|
    ensures OrderedAround(h[pos := x], pos)
  {
    var g := h[pos := x];
    forall k | 0 < k < |g| && k != pos && Parent(k) != pos
      ensures Edge(g, k)
    {
      assert Edge(h, k);
    }
    if pos > 0 {
      forall k | 0 < k < |g| && Parent(k) == pos
        ensures g[Parent(pos)].timer <= g[k].timer
      {
        assert Edge(h, k) && Edge(h, pos);
      }
    }
  }

  /** The last slot moves to `pos`. */
  function Filled(h: seq<TimerNode>, pos: nat): (r: seq<TimerNode>)
    requires pos < |h|
    ensures |r| == |h| - 1
  {
    (if pos < |h| - 1 then Swapped(h, pos, |h| - 1) else h)[..|h| - 1]
  }

  /** `destory_`: the last slot replaces `pos`, and is refitted there. */
  function Removed(form: Form, h: seq<TimerNode>, pos: nat): (r: seq<TimerNode>)
    requires pos < |h|
    ensures |r| == |h| - 1
  {
    var g := Filled(h, pos);
    if pos < |g| then Refitted(form, g, pos) else g
  }

  lemma RemovedOrdered(h: seq<TimerNode>, pos: nat)
    requires Ordered(h) && pos < |h|
    ensures Ordered(Removed(Intended, h, pos))
  {
    var n := |h| - 1;
    var front := h[..n];
    forall k | 0 < k < n
      ensures Edge(front, k)
    {
      assert Edge(h, k);
    }
    if pos < n {
      assert Swapped(h, pos, n)[..n] == front[pos := h[n]];
      RefittedOrdered(front, pos, h[n]);
    } else {
      assert h[..n] == front;
    }
  }

  function Popped(form: Form, h: seq<TimerNode>): (r: seq<TimerNode>)
    requires |h| > 0
    ensures |r| == |h| - 1
  {
    if form.AsWritten? then Removed(form, Swapped(h, 0, |h| - 1), |h| - 1) else Removed(form, h, 0)
  }

  lemma AppendedBut(h: seq<TimerNode>, x: TimerNode)
    requires Ordered(h)
    ensures OrderedBut(h + [x], |h|)
  {
    forall k | 0 < k < |h|
      ensures Edge(h + [x], k)
    {
      assert Edge(h, k);
    }
  }

  lemma PushedOrdered(h: seq<TimerNode>, x: TimerNode)
    requires Ordered(h)
    ensures Ordered(SiftedUp(Intended, h + [x], |h|))
  {
    AppendedBut(h, x);
    SiftedUpOrdered(h + [x], |h|);
  }

  // ---------------------------------------------------------------- the id-to-position map

  ghost predicate Bijection(h: seq<TimerNode>, index: map<int, int>) {
    && (forall p | 0 <= p < |h| :: h[p].id in index && index[h[p].id] == p)
    && (forall id | id in index :: 0 <= index[id] < |h| && h[index[id]].id == id)
  }

  /** The stored collection: what the heap holds, forgetting where. */
  ghost function Contents(h: seq<TimerNode>, index: map<int, int>): (c: map<int, TimerNode>)
    requires Bijection(h, index)
    ensures c.Keys == index.Keys
    ensures forall p | 0 <= p < |h| :: h[p].id in c && c[h[p].id] == h[p]
    ensures forall id | id in c :: c[id] in h && c[id].id == id
  {
    map id | id in index :: h[index[id]]
  }

  lemma FrontIsMinimumOfContents(h: seq<TimerNode>, index: map<int, int>)
    requires Bijection(h, index) && Ordered(h) && |h| > 0
    ensures forall id | id in Contents(h, index) :: h[0].timer <= Contents(h, index)[id].timer
  {
    forall id | id in index
      ensures h[0].timer <= h[index[id]].timer
    {
      FrontIsMinimum(h, index[id]);
    }
  }

  lemma SwapKeepsContents(h: seq<TimerNode>, index: map<int, int>, l: nat, r: nat)
    requires Bijection(h, index) && l < |h| && r < |h|
    ensures var g := Swapped(h, l, r); var index' := index[g[l].id := l][g[r].id := r];
      Bijection(g, index') && Contents(g, index') == Contents(h, index)
  {
  }

  lemma DropLastContents(h: seq<TimerNode>, index: map<int, int>)
    requires Bijection(h, index) && |h| > 0
    ensures var n := |h| - 1; var index' := index - {h[n].id};
      Bijection(h[..n], index') && Contents(h[..n], index') == Contents(h, index) - {h[n].id}
  {
  }

  lemma AppendContents(h: seq<TimerNode>, index: map<int, int>, x: TimerNode)
    requires Bijection(h, index) && x.id !in index
    ensures var index' := index[x.id := |h|];
      Bijection(h + [x], index') && Contents(h + [x], index') == Contents(h, index)[x.id := x]
  {
  }

  lemma WriteContents(h: seq<TimerNode>, index: map<int, int>, x: TimerNode)
    requires Bijection(h, index) && x.id in index
    ensures Bijection(h[index[x.id] := x], index)
    ensures Contents(h[index[x.id] := x], index) == Contents(h, index)[x.id := x]
  {
  }

  // ---------------------------------------------------------------- best-first search for expired timers

  ghost predicate Sorted(s: seq<TimerNode>) {
    forall i, j | 0 <= i < j < |s| :: s[i].timer <= s[j].timer
  }

  predicate Minimal(q: multiset<TimerNode>, x: TimerNode) {
    x in q && forall y | y in q :: x.timer <= y.timer
  }

  lemma {:induction false} MinimalExists(q: multiset<TimerNode>) returns (x: TimerNode)
    requires |q| > 0
    ensures Minimal(q, x)
    decreases |q|
  {
    x :| x in q;
    var rest := q - multiset{x};
    assert forall z | z in q && z != x :: z in rest;
    if |rest| > 0 {
      var y := MinimalExists(rest);
      x := if y.timer < x.timer then y else x;
    }
  }

  /** `priority_queue::top` of the intended min-first queue; which of several equal deadlines comes first is open. */
  method Top(q: multiset<TimerNode>) returns (x: TimerNode)
    requires |q| > 0
    ensures Minimal(q, x)
  {
    ghost var _ := MinimalExists(q);
    x :| x in q && Minimal(q, x);
  }

  /** Frontier and visited nodes are stored nodes, each once, and disjoint. */
  ghost predicate Once(h: seq<TimerNode>, q: multiset<TimerNode>, seen: seq<TimerNode>) {
    && (forall x | x in q :: q[x] == 1 && x in h && x !in seen)
    && (forall x | x in seen :: multiset(seen)[x] == 1 && x in h)
  }

  /** The frontier holds exactly the unvisited nodes whose parent is visited, and the root while it is unvisited;
      under the parent `open` only the slots before `upto` have been pushed so far. */
  ghost predicate Closed(h: seq<TimerNode>, q: multiset<TimerNode>, seen: seq<TimerNode>, open: int, upto: int) {
    forall p | 0 <= p < |h| ::
      (h[p] in q || h[p] in seen) <==>
      (p == 0 || (h[Parent(p)] in seen && (Parent(p) == open ==> p < upto)))
  }

  ghost predicate Frontier(h: seq<TimerNode>, q: multiset<TimerNode>, seen: seq<TimerNode>) {
    Once(h, q, seen) && Closed(h, q, seen, -1, 0)
  }

  /** An expired node has expired ancestors, so the search cannot stop above it. */
  lemma {:induction false} SearchIsComplete(h: seq<TimerNode>, q: multiset<TimerNode>, seen: seq<TimerNode>, ts: int, p: nat)
    requires Ordered(h) && Frontier(h, q, seen) && p < |h|
    requires forall x | x in q :: x.timer > ts
    ensures h[p].timer <= ts ==> h[p] in seen
  {
    if h[p].timer <= ts && p > 0 {
      assert Edge(h, p);
      SearchIsComplete(h, q, seen, ts, Parent(p));
    }
  }

  /** Visiting a frontier node opens its children. */
  lemma VisitCloses(h: seq<TimerNode>, index: map<int, int>, q: multiset<TimerNode>, seen: seq<TimerNode>, x: TimerNode)
    requires Bijection(h, index) && Frontier(h, q, seen) && x in q
    ensures x.id in index && h[index[x.id]] == x
    ensures Closed(h, q - multiset{x}, seen + [x], index[x.id], 0)
  {
    var at := index[x.id];
    forall p | 0 <= p < |h|
      ensures (h[p] in q - multiset{x} || h[p] in seen + [x]) <==>
        (p == 0 || (h[Parent(p)] in seen + [x] && (Parent(p) == at ==> p < 0)))
    {
      assert h[p] == x <==> p == at;
      if p > 0 {
        assert h[Parent(p)] == x <==> Parent(p) == at;
      }
    }
  }

  lemma VisitOnce(h: seq<TimerNode>, q: multiset<TimerNode>, seen: seq<TimerNode>, x: TimerNode)
    requires Once(h, q, seen) && x in q
    ensures Once(h, q - multiset{x}, seen + [x])
    ensures |multiset(h) - multiset(seen + [x])| < |multiset(h) - multiset(seen)|
  {
  }

  /** Pushing the next child of the node just visited. */
  lemma PushChild(h: seq<TimerNode>, index: map<int, int>, q: multiset<TimerNode>, seen: seq<TimerNode>, at: nat, c: nat)
    requires Bijection(h, index) && at < c < |h| && Parent(c) == at && h[at] in seen
    requires Once(h, q, seen) && Closed(h, q, seen, at, c)
    ensures Once(h, q + multiset{h[c]}, seen) && Closed(h, q + multiset{h[c]}, seen, at, c + 1)
  {
    assert h[c] !in q && h[c] !in seen;
    var q' := q + multiset{h[c]};
    forall p | 0 <= p < |h|
      ensures (h[p] in q' || h[p] in seen) <==> (p == 0 || (h[Parent(p)] in seen && (Parent(p) == at ==> p < c + 1)))
    {
      assert h[p] == h[c] <==> p == c;
    }
  }

  /** The found nodes are expired and in deadline order, none after a node still waiting. */
  ghost predicate FoundInOrder(q: multiset<TimerNode>, found: seq<TimerNode>, ts: int) {
    && Sorted(found)
    && (forall x | x in found :: x.timer <= ts)
    && (forall x, y | x in found && y in q :: x.timer <= y.timer)
  }

  ghost predicate LatestIs(found: seq<TimerNode>, x: TimerNode) {
    x in found && forall y | y in found :: y.timer <= x.timer
  }

  lemma RootFrontier(h: seq<TimerNode>, index: map<int, int>, ts: int)
    requires Bijection(h, index) && |h| > 0
    ensures Frontier(h, multiset{h[0]}, []) && FoundInOrder(multiset{h[0]}, [], ts)
  {
  }

  lemma FoundExtends(q: multiset<TimerNode>, found: seq<TimerNode>, ts: int, x: TimerNode)
    requires FoundInOrder(q, found, ts) && x in q && Minimal(q, x) && x.timer <= ts
    ensures FoundInOrder(q - multiset{x}, found + [x], ts)
    ensures LatestIs(found + [x], x)
  {
  }

  lemma PushKeepsOrder(q: multiset<TimerNode>, found: seq<TimerNode>, ts: int, parent: TimerNode, child: TimerNode)
    requires FoundInOrder(q, found, ts) && LatestIs(found, parent) && parent.timer <= child.timer
    ensures FoundInOrder(q + multiset{child}, found, ts)
  {
  }

  /** Halfway through the children of `at`. */
  ghost predicate Pushing(h: seq<TimerNode>, q: multiset<TimerNode>, seen: seq<TimerNode>, ts: int, at: nat, upto: nat) {
    Once(h, q, seen) && Closed(h, q, seen, at, upto) && FoundInOrder(q, seen, ts)
  }

  lemma PushStep(h: seq<TimerNode>, index: map<int, int>, q: multiset<TimerNode>, seen: seq<TimerNode>, ts: int, at: nat, c: nat)
    requires Bijection(h, index) && Ordered(h) && 4 * at < c <= 4 * at + 4 && c < |h|
    requires Pushing(h, q, seen, ts, at, c) && LatestIs(seen, h[at])
    ensures Pushing(h, q + multiset{h[c]}, seen, ts, at, c + 1)
  {
    assert Parent(c) == at && Edge(h, c);
    PushKeepsOrder(q, seen, ts, h[at], h[c]);
    PushChild(h, index, q, seen, at, c);
  }

  lemma NonePushed(h: seq<TimerNode>, q: multiset<TimerNode>, seen: seq<TimerNode>, ts: int, at: nat)
    requires Once(h, q, seen) && Closed(h, q, seen, at, 0) && FoundInOrder(q, seen, ts)
    ensures Pushing(h, q, seen, ts, at, 4 * at + 1)
  {
  }

  lemma AllPushed(h: seq<TimerNode>, q: multiset<TimerNode>, seen: seq<TimerNode>, ts: int, at: nat, upto: nat)
    requires Pushing(h, q, seen, ts, at, upto) && (upto >= |h| || upto == 4 * at + 5)
    ensures Frontier(h, q, seen) && FoundInOrder(q, seen, ts)
  {
  }

  lemma SearchResult(h: seq<TimerNode>, index: map<int, int>, q: multiset<TimerNode>, found: seq<TimerNode>, ts: int)
    requires Bijection(h, index) && Ordered(h) && Frontier(h, q, found) && FoundInOrder(q, found, ts)
    requires forall x | x in q :: x.timer > ts
    ensures forall x :: multiset(found)[x] == if x in h && x.timer <= ts then 1 else 0
  {
    forall x
      ensures multiset(found)[x] == if x in h && x.timer <= ts then 1 else 0
    {
      if x in h && x.timer <= ts {
        SearchIsComplete(h, q, found, ts, index[x.id]);
      }
    }
  }

  method PushAt(
      h: seq<TimerNode>, ghost index: map<int, int>, q0: multiset<TimerNode>, c: nat,
      ghost at: nat, ghost seen: seq<TimerNode>, ghost ts: int)
    returns (q: multiset<TimerNode>)
    requires Bijection(h, index) && Ordered(h) && 4 * at < c <= 4 * at + 4 && c < |h|
    requires Pushing(h, q0, seen, ts, at, c) && LatestIs(seen, h[at])
    ensures Pushing(h, q, seen, ts, at, c + 1) && q == q0 + multiset{h[c]}
  {
    PushStep(h, index, q0, seen, ts, at, c);
    q := q0 + multiset{h[c]};
  }

  /** Lines 191-195: push the children of position `at`, shifting left as meant. */
  method PushChildren(
      h: seq<TimerNode>, ghost index: map<int, int>, q0: multiset<TimerNode>, at: nat, ghost seen: seq<TimerNode>, ghost ts: int)
    returns (q: multiset<TimerNode>)
    requires Bijection(h, index) && Ordered(h) && at < |h|
    requires Once(h, q0, seen) && Closed(h, q0, seen, at, 0)
    requires FoundInOrder(q0, seen, ts) && LatestIs(seen, h[at])
    ensures Frontier(h, q, seen) && FoundInOrder(q, seen, ts)
  {
    q := q0;
    var top := at * 4;
    NonePushed(h, q, seen, ts, at);
    var i := 1;
    while top + i < |h| && i <= 4
      invariant 1 <= i <= 5
      invariant Pushing(h, q, seen, ts, at, top + i)
    {
      q := PushAt(h, index, q, top + i, at, seen, ts);
      i := i + 1;
    }
    AllPushed(h, q, seen, ts, at, top + i);
  }

  class FourHeap {
    const form: Form
    var heap: seq<TimerNode>
    var index: map<int, int>

    ghost predicate Indexed()
      reads this
    {
      Bijection(heap, index)
    }

    ghost predicate Valid()
      reads this
    {
      Indexed() && (form.Intended? ==> Ordered(heap))
    }

    ghost function Stored(): map<int, TimerNode>
      reads this
      requires Indexed()
    {
      Contents(heap, index)
    }

    constructor (form: Form)
      ensures this.form == form && heap == [] && index == map[]
      ensures Valid() && Stored() == map[]
    {
      this.form, heap, index := form, [], map[];
    }

    method Clear()
      modifies this
      ensures heap == [] && index == map[]
      ensures Valid() && Stored() == map[]
    {
      heap, index := [], map[];
    }

    method Swap(l: nat, r: nat)
      requires Indexed() && l < |heap| && r < |heap|
      modifies this
      ensures heap == Swapped(old(heap), l, r)
      ensures Indexed() && Stored() == old(Stored())
    {
      SwapKeepsContents(heap, index, l, r);
      heap := heap[l := heap[r]][r := heap[l]];
      index := index[heap[l].id := l];
      index := index[heap[r].id := r];
    }

    /** The inner loop of `shif_down_`. */
    method SmallestChild(pos: nat) returns (miniIndex: int)
      requires pos < |heap| && FirstChild(form, pos) < |heap|
      ensures miniIndex == MinChild(form, heap, pos)
    {
      var n := |heap|;
      var j := FirstChild(form, pos);
      var mini := heap[pos].timer;
      miniIndex := -1;
      var k := j;
      while k < n && k < j + 4
        invariant j <= k <= WindowEnd(form, n, pos)
        invariant -1 <= miniIndex < n
        invariant mini == heap[if miniIndex < 0 then pos else miniIndex].timer
        invariant Scan(heap, pos, k, WindowEnd(form, n, pos), miniIndex) == MinChild(form, heap, pos)
      {
        if mini > heap[k].timer {
          mini := heap[k].timer;
          miniIndex := k;
        }
        k := k + 1;
      }
    }

    method SiftDown(pos: nat) returns (cnt: nat)
      requires Indexed() && pos < |heap|
      modifies this
      ensures heap == SiftedDown(form, old(heap), pos)
      ensures cnt == 0 <==> MinChild(form, old(heap), pos) == -1
      ensures Indexed() && Stored() == old(Stored())
    {
      cnt := 0;
      var n := |heap|;
      var i: nat := pos;
      var j := FirstChild(form, pos);
      while j < n
        invariant i < |heap| == n && j == FirstChild(form, i)
        invariant SiftedDown(form, heap, i) == SiftedDown(form, old(heap), pos)
        invariant cnt == 0 ==> i == pos && heap == old(heap)
        invariant cnt > 0 ==> MinChild(form, old(heap), pos) != -1
        invariant Indexed() && Stored() == old(Stored())
        decreases n - i
      {
        MinChildPicks(form, heap, i);
        var miniIndex := SmallestChild(i);
        if miniIndex == -1 {
          break;
        }
        Swap(i, miniIndex);
        i := miniIndex;
        j := FirstChild(form, i);
        cnt := cnt + 1;
      }
    }

    method SiftUp(pos: nat) returns (cnt: nat)
      requires Indexed() && pos < |heap|
      modifies this
      ensures heap == SiftedUp(form, old(heap), pos)
      ensures Indexed() && Stored() == old(Stored())
    {
      cnt := 0;
      var i: nat := pos;
      var j := ParentOrNone(pos);
      while j >= 0
        invariant Climbing(form, old(heap), pos, heap, i, j, cnt)
        invariant Indexed() && Stored() == old(Stored())
        decreases i, if cnt == 0 then 1 else 0
      {
        if heap[j].timer <= heap[i].timer {
          break;
        }
        ClimbStep(form, old(heap), pos, heap, i, j, cnt);
        Swap(i, j);
        i := j;
        j := if form.AsWritten? then ParentOrNone(pos) else ParentOrNone(i);
        cnt := cnt + 1;
      }
      ClimbStop(form, old(heap), pos, heap, i, j, cnt);
    }

    method DropLast()
      requires Indexed() && |heap| > 0
      modifies this
      ensures heap == old(heap)[..|old(heap)| - 1]
      ensures Indexed() && Stored() == old(Stored()) - {old(heap)[|old(heap)| - 1].id}
    {
      var n := |heap| - 1;
      DropLastContents(heap, index);
      index := index - {heap[n].id};
      heap := heap[..n];
    }

    /** Lines 90-93 and 114-117. */
    method Refit(pos: nat)
      requires Indexed() && pos < |heap|
      modifies this
      ensures heap == Refitted(form, old(heap), pos)
      ensures Indexed() && Stored() == old(Stored())
    {
      MinChildPicks(form, heap, pos);
      var cnt := SiftDown(pos);
      if cnt == 0 {
        assert heap == old(heap);
        var _ := SiftUp(pos);
      }
    }

    /** Lines 81-89. */
    method Fill(pos: nat)
      requires Indexed() && pos < |heap|
      modifies this
      ensures heap == Filled(old(heap), pos)
      ensures Indexed() && Stored() == old(Stored()) - {old(heap)[pos].id}
    {
      var n := |heap| - 1;
      if pos < n {
        Swap(pos, n);
      }
      DropLast();
    }

    method Destroy(pos: nat)
      requires Indexed() && pos < |heap|
      modifies this
      ensures heap == Removed(form, old(heap), pos)
      ensures Indexed() && Stored() == old(Stored()) - {old(heap)[pos].id}
    {
      Fill(pos);
      if pos < |heap| {
        Refit(pos);
      }
    }

    method Push(node: TimerNode)
      requires Indexed()
      modifies this
      ensures node.id !in old(index) ==> heap == SiftedUp(form, old(heap) + [node], |old(heap)|)
      ensures node.id in old(index) ==>
        heap == Refitted(form, old(heap)[old(index)[node.id] := node], old(index)[node.id])
      ensures Indexed() && Stored() == old(Stored())[node.id := node]
      ensures old(Valid()) ==> Valid()
    {
      var id := node.id;
      if id !in index {
        var pos := |heap|;
        PushedOrderedIf(heap, node);
        AppendContents(heap, index, node);
        index := index[id := pos];
        heap := heap + [node];
        if |heap| == 1 {
          return;
        }
        var _ := SiftUp(pos);
      } else {
        var pos := index[id];
        RefittedOrderedIf(heap, pos, node);
        WriteContents(heap, index, node);
        heap := heap[pos := node];
        Refit(pos);
      }
    }

    /** The front of a valid intended heap is a minimum over exactly the stored timers. */
    method Front() returns (node: TimerNode)
      requires Indexed() && |heap| > 0
      ensures node == heap[0]
      ensures node.id in Stored() && Stored()[node.id] == node
      ensures form.Intended? && Valid() ==> forall id | id in Stored() :: node.timer <= Stored()[id].timer
    {
      node := heap[0];
      if form.Intended? && Valid() {
        FrontIsMinimumOfContents(heap, index);
      }
    }

    method Find(id: int) returns (found: bool)
      requires Indexed()
      ensures found <==> id in Stored()
    {
      found := id in index;
    }

    method Empty() returns (empty: bool)
      requires Indexed()
      ensures empty <==> heap == []
      ensures empty <==> Stored() == map[]
    {
      empty := |heap| == 0;
      if !empty {
        assert heap[0].id in Stored();
      } else {
        assert Stored().Keys == {};
      }
    }

    method Pop()
      requires Indexed() && |heap| > 0
      modifies this
      ensures heap == Popped(form, old(heap))
      ensures Indexed() && Stored() == old(Stored()) - {old(heap)[0].id}
      ensures old(Valid()) ==> Valid()
    {
      if form.AsWritten? {
        Swap(0, |heap| - 1);
        Destroy(|heap| - 1);
      } else {
        RemovedOrderedIf(heap, 0);
        Destroy(0);
      }
    }

    method Remove(id: int) returns (removed: bool)
      requires Indexed()
      modifies this
      ensures removed <==> id in old(index)
      ensures heap == if removed then Removed(form, old(heap), old(index)[id]) else old(heap)
      ensures Indexed() && Stored() == old(Stored()) - {id}
      ensures old(Valid()) ==> Valid()
    {
      if id !in index {
        assert Stored() == Stored() - {id};
        return false;
      }
      RemovedOrderedIf(heap, index[id]);
      Destroy(index[id]);
      return true;
    }

    /** Only sifts down: see RetimedIsOrderedIff for exactly which deadlines keep the heap ordered. A deadline that
        is not earlier than the stored one always does. */
    method Rewrite(pos: nat, node: TimerNode)
      requires Indexed() && pos < |heap| && node.id == heap[pos].id
      modifies this
      ensures heap == SiftedDown(form, old(heap)[pos := node], pos)
      ensures Indexed() && Stored() == old(Stored())[node.id := node]
      ensures form.Intended? && old(Valid()) && node.timer >= old(heap[pos]).timer ==> Valid()
    {
      RetimedIsOrderedIff(heap, index, node.id, node, form);
      WriteContents(heap, index, node);
      heap := heap[pos := node];
      var _ := SiftDown(pos);
    }

    method Reset(id: int, timer: int)
      requires Indexed() && id in index
      modifies this
      ensures var pos := old(index)[id];
        heap == SiftedDown(form, old(heap)[pos := old(heap)[pos].(timer := timer)], pos)
      ensures Indexed() && Stored() == old(Stored())[id := old(Stored())[id].(timer := timer)]
      ensures form.Intended? && old(Valid()) && timer >= old(Stored())[id].timer ==> Valid()
    {
      Rewrite(index[id], heap[index[id]].(timer := timer));
    }

    /** Every stored timer with deadline at most `ts`, each once, in non-decreasing deadline order. The queue
        is min-first and children are found by shifting left (lines 178 and 191 have it the other way round:
        module FourHeapSearch). Ties are broken arbitrarily. */
    method GetK(ts: int) returns (res: seq<TimerNode>)
      requires form.Intended? && Valid()
      ensures Sorted(res)
      ensures forall x :: multiset(res)[x] == if x in heap && x.timer <= ts then 1 else 0
    {
      res := [];
      if |heap| == 0 {
        return;
      }
      RootFrontier(heap, index, ts);
      var q := multiset{heap[0]};
      while |q| > 0
        invariant Frontier(heap, q, res) && FoundInOrder(q, res, ts)
        decreases |multiset(heap) - multiset(res)|
      {
        var curr := Top(q);
        if curr.timer > ts {
          break;
        }
        VisitCloses(heap, index, q, res, curr);
        VisitOnce(heap, q, res, curr);
        FoundExtends(q, res, ts, curr);
        q := q - multiset{curr};
        res := res + [curr];
        q := PushChildren(heap, index, q, index[curr.id], res, ts);
      }
      SearchResult(heap, index, q, res, ts);
    }

    method Extend(micros: int, id: int, repeat: bool)
      requires Indexed() && id in index
      modifies this
      ensures var pos := old(index)[id];
        heap == SiftedDown(form, old(heap)[pos := Extended(old(heap)[pos], micros, repeat)], pos)
      ensures Indexed() && Stored() == old(Stored())[id := Extended(old(Stored())[id], micros, repeat)]
      ensures form.Intended? && old(Valid()) && Extended(old(Stored())[id], micros, repeat).timer >= old(Stored())[id].timer ==> Valid()
    {
      var node := heap[index[id]].(repeat := repeat);
      var step := if micros > 0 then micros else IntervalMicros(node);
      node := node.(timer := node.timer + step);
      assert node == Extended(heap[index[id]], micros, repeat);
      Rewrite(index[id], node);
    }
  }

  function Extended(node: TimerNode, micros: int, repeat: bool): TimerNode {
    node.(repeat := repeat, timer := node.timer + if micros > 0 then micros else IntervalMicros(node))
  }

  ghost predicate LongEnough(h: seq<TimerNode>, pos: nat, timer: int)
    requires pos < |h|
  {
    pos > 0 ==> h[Parent(pos)].timer <= timer
  }

  /** reset and extend only sift down, so order survives exactly when the new deadline is not earlier than the
      parent's. */
  lemma RetimedIsOrderedIff(h: seq<TimerNode>, index: map<int, int>, id: int, x: TimerNode, form: Form)
    requires Bijection(h, index) && id in index
    ensures form.Intended? && Ordered(h) ==>
      (Ordered(SiftedDown(form, h[index[id] := x], index[id])) <==> LongEnough(h, index[id], x.timer))
    ensures Ordered(h) && x.timer >= h[index[id]].timer ==> LongEnough(h, index[id], x.timer)
  {
    var pos := index[id];
    if Ordered(h) {
      SlotKeepsAround(h, pos, x);
      SiftedDownOrdered(h[pos := x], pos);
      if pos > 0 {
        assert Edge(h, pos);
      }
    }
  }

  lemma PushedOrderedIf(h: seq<TimerNode>, x: TimerNode)
    ensures Ordered(h) ==> Ordered(SiftedUp(Intended, h + [x], |h|))
  {
    if Ordered(h) {
      PushedOrdered(h, x);
    }
  }

  lemma RefittedOrderedIf(h: seq<TimerNode>, pos: nat, x: TimerNode)
    requires pos < |h|
    ensures Ordered(h) ==> Ordered(Refitted(Intended, h[pos := x], pos))
  {
    if Ordered(h) {
      RefittedOrdered(h, pos, x);
    }
  }

  lemma RemovedOrderedIf(h: seq<TimerNode>, pos: nat)
    requires pos < |h|
    ensures Ordered(h) ==> Ordered(Removed(Intended, h, pos))
  {
    if Ordered(h) {
      RemovedOrdered(h, pos);
    }
  }
}
