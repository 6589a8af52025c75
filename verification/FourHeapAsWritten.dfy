/** What the text of src/base/four_heap.cc guarantees as it stands, and exactly when it falls short of heap order. */
module FourHeapAsWritten {
  import opened SourceForm
  import opened TimerNodes
  import opened FourHeaps

  function At(id: int, timer: int): TimerNode {
    TimerNode(id, 0, false, timer)
  }

  // ---------------------------------------------------------------- push

  /** Lines 59-77 climb one level only, so the climb is enough exactly when the new deadline stays at its slot,
      reaches the root, or is not earlier than its grandparent's. */
  lemma PushIsOrderedIff(h: seq<TimerNode>, x: TimerNode)
    requires Ordered(h)
    ensures Ordered(SiftedUp(AsWritten, h + [x], |h|)) <==>
      (|h| <= 4 || h[Parent(|h|)].timer <= x.timer || h[Parent(Parent(|h|))].timer <= x.timer)
  {
    var n := |h|;
    AppendedBut(h, x);
    if n > 0 && x.timer < h[Parent(n)].timer {
      ClimbedOnceIff(h + [x], n);
    } else if n > 0 {
      assert Edge(h + [x], n);
    }
  }

  lemma ClimbedOnceIff(g: seq<TimerNode>, pos: nat)
    requires 0 < pos < |g| && OrderedBut(g, pos) && g[pos].timer < g[Parent(pos)].timer
    ensures Ordered(Swapped(g, pos, Parent(pos))) <==>
      (pos <= 4 || g[Parent(Parent(pos))].timer <= g[pos].timer)
  {
    var q := Parent(pos);
    var r := Swapped(g, pos, q);
    SwapUpKeepsBut(g, pos);
    if q > 0 {
      assert Edge(r, q) <==> g[Parent(q)].timer <= g[pos].timer;
    } else {
      assert Ordered(r);
    }
  }

  ghost predicate FrontMinimal(h: seq<TimerNode>) {
    forall k | 0 <= k < |h| :: h[0].timer <= h[k].timer
  }

  /** Whether front() still answers a minimum after the push, of any heap on which it did before. */
  lemma FrontAfterPushIff(h: seq<TimerNode>, x: TimerNode)
    requires FrontMinimal(h) && |h| > 0
    ensures FrontMinimal(SiftedUp(AsWritten, h + [x], |h|)) <==> (|h| <= 4 || h[0].timer <= x.timer)
  {
    var q := PushedOnce(h, x);
    if h[q].timer <= x.timer {
      assert FrontMinimal(h + [x]);
    } else {
      FrontOfSwapped(h, x, q);
    }
  }

  lemma PushedOnce(h: seq<TimerNode>, x: TimerNode) returns (q: nat)
    requires |h| > 0
    ensures q < |h| && (q == 0 <==> |h| <= 4)
    ensures SiftedUp(AsWritten, h + [x], |h|) == if h[q].timer <= x.timer then h + [x] else Swapped(h + [x], |h|, q)
  {
    q := Parent(|h|);
  }

  /** The new timer exchanged with slot `q`. */
  lemma FrontOfSwapped(h: seq<TimerNode>, x: TimerNode, q: nat)
    requires FrontMinimal(h) && q < |h| && x.timer < h[q].timer
    ensures FrontMinimal(Swapped(h + [x], |h|, q)) <==> (q == 0 || h[0].timer <= x.timer)
  {
    var r := Swapped(h + [x], |h|, q);
    assert r == h[q := x] + [h[q]];
    assert r[q] == x;
    assert q == 0 ==> r[0] == x;
  }

  /** A heap filled by literal pushes alone. */
  function Pushed(xs: seq<TimerNode>): (h: seq<TimerNode>)
    ensures |h| == |xs|
  {
    if xs == [] then []
    else
      var n := |xs| - 1;
      SiftedUp(AsWritten, Pushed(xs[..n]) + [xs[n]], n)
  }

  ghost predicate NotBeforeFirstFive(xs: seq<TimerNode>, n: nat)
    requires 5 <= n < |xs|
  {
    exists m | 0 <= m < 5 :: xs[m].timer <= xs[n].timer
  }

  /** Over every run of literal pushes into an empty heap: front() answers a minimum in the end exactly when every timer
      after the fifth is no earlier than one of the first five, for the root is never exchanged again after those. */
  lemma FrontAfterPushesIff(xs: seq<TimerNode>)
    ensures FrontMinimal(Pushed(xs)) <==>
      forall n | 5 <= n < |xs| :: NotBeforeFirstFive(xs, n)
  {
    if |xs| <= 5 {
      FewPushesKeepFront(xs);
    } else {
      var m := RootIsEarliestOfFive(xs);
      PushedHolds(xs);
      FrontMinimalOf(Pushed(xs), xs);
      EarliestOfFive(xs, m);
    }
  }

  lemma RootIsEarliestOfFive(xs: seq<TimerNode>) returns (m: nat)
    requires |xs| > 5
    ensures m < 5 && Pushed(xs)[0] == xs[m]
    ensures forall k | 0 <= k < 5 :: xs[m].timer <= xs[k].timer
  {
    var few := xs[..5];
    RootStays(xs);
    FewPushesKeepFront(few);
    PushedHolds(few);
    FrontMinimalOf(Pushed(few), few);
    m :| 0 <= m < 5 && few[m] == Pushed(few)[0];
    assert forall k | 0 <= k < 5 :: few[k] == xs[k];
  }

  lemma EarliestOfFive(xs: seq<TimerNode>, m: nat)
    requires |xs| > 5 && m < 5 && forall k | 0 <= k < 5 :: xs[m].timer <= xs[k].timer
    ensures (forall k | 0 <= k < |xs| :: xs[m].timer <= xs[k].timer) <==>
      forall n | 5 <= n < |xs| :: NotBeforeFirstFive(xs, n)
  {
    forall n | 5 <= n < |xs|
      ensures NotBeforeFirstFive(xs, n) <==> xs[m].timer <= xs[n].timer
    {
    }
  }

  lemma FrontMinimalOf(h: seq<TimerNode>, xs: seq<TimerNode>)
    requires multiset(h) == multiset(xs) && |h| > 0
    ensures FrontMinimal(h) <==> forall k | 0 <= k < |xs| :: h[0].timer <= xs[k].timer
    ensures exists m | 0 <= m < |xs| :: xs[m] == h[0]
  {
    assert h[0] in multiset(h);
    forall k | 0 <= k < |xs|
      ensures xs[k] in h
    {
      assert xs[k] in multiset(xs);
    }
    forall k | 0 <= k < |h|
      ensures h[k] in xs
    {
      assert h[k] in multiset(h);
    }
  }

  lemma {:induction false} PushedHolds(xs: seq<TimerNode>)
    ensures multiset(Pushed(xs)) == multiset(xs)
  {
    if xs != [] {
      var n := |xs| - 1;
      PushedHolds(xs[..n]);
      assert xs == xs[..n] + [xs[n]];
      ClimbedOnceHolds(Pushed(xs[..n]) + [xs[n]], n);
    }
  }

  lemma ClimbedOnceHolds(h: seq<TimerNode>, pos: nat)
    requires pos < |h|
    ensures multiset(SiftedUp(AsWritten, h, pos)) == multiset(h)
    ensures pos > 4 ==> SiftedUp(AsWritten, h, pos)[0] == h[0]
  {
    if pos > 0 {
      assert multiset(Swapped(h, pos, Parent(pos))) == multiset(h);
    }
  }

  lemma {:induction false} RootStays(xs: seq<TimerNode>)
    requires |xs| >= 5
    ensures Pushed(xs)[0] == Pushed(xs[..5])[0]
  {
    var n := |xs| - 1;
    if n >= 5 {
      RootStays(xs[..n]);
      assert xs[..n][..5] == xs[..5];
      ClimbedOnceHolds(Pushed(xs[..n]) + [xs[n]], n);
    } else {
      assert xs[..5] == xs;
    }
  }

  lemma {:induction false} FewPushesKeepFront(xs: seq<TimerNode>)
    requires |xs| <= 5
    ensures FrontMinimal(Pushed(xs))
  {
    if |xs| > 1 {
      var n := |xs| - 1;
      FewPushesKeepFront(xs[..n]);
      FrontAfterPushIff(Pushed(xs[..n]), xs[n]);
    }
  }

  lemma PushLosesTheFront()
    ensures exists h: seq<TimerNode>, x: TimerNode ::
      Ordered(h) && var r := SiftedUp(AsWritten, h + [x], |h|); |r| == 6 && r[1].timer < r[0].timer
  {
    var h := [At(1, 10), At(2, 20), At(3, 20), At(4, 20), At(5, 20)];
    var x := At(6, 5);
    assert Ordered(h);
    var g := h + [x];
    assert Parent(5) == 1 && g[5] == x && g[1] == h[1];
    assert SiftedUp(AsWritten, g, |h|) == Swapped(g, 5, 1);
  }

  // ---------------------------------------------------------------- pop

  /** Lines 136-141 put the last slot at the root and sift nothing: the result is ordered exactly when that
      timer is not later than the first four slots below the root. */
  lemma PopIsOrderedIff(h: seq<TimerNode>)
    requires Ordered(h) && |h| > 0
    ensures var n := |h| - 1;
      Ordered(Popped(AsWritten, h)) <==> (forall c | 1 <= c <= 4 && c < n :: h[n].timer <= h[c].timer)
  {
    var n := |h| - 1;
    var r := Popped(AsWritten, h);
    assert r == Swapped(h, 0, n)[..n];
    if n > 0 {
      assert r == h[..n][0 := h[n]];
    }
    forall k | 0 < k < n
      ensures Edge(r, k) <==> (k <= 4 ==> h[n].timer <= h[k].timer)
    {
      assert Edge(h, k);
    }
    if forall c | 1 <= c <= 4 && c < n :: h[n].timer <= h[c].timer {
      assert Ordered(r);
    } else {
      var c :| 1 <= c <= 4 && c < n && h[n].timer > h[c].timer;
      assert !Edge(r, c);
    }
  }

  // ---------------------------------------------------------------- sift-down

  ghost predicate DistinctIds(h: seq<TimerNode>) {
    forall i, j | 0 <= i < j < |h| :: h[i].id != h[j].id
  }

  /** Both forms of the sift pick the same slot at every step. */
  ghost predicate SamePath(h: seq<TimerNode>, pos: nat)
    requires pos < |h|
    decreases |h| - pos
  {
    MinChildPicks(Intended, h, pos);
    var m := MinChild(Intended, h, pos);
    MinChild(AsWritten, h, pos) == m && (m == -1 || SamePath(Swapped(h, pos, m), m))
  }

  /** The literal sift computes the intended heap exactly when it takes the intended path. */
  lemma {:induction false} SiftsAgreeIff(h: seq<TimerNode>, pos: nat)
    requires pos < |h| && DistinctIds(h)
    ensures SiftedDown(AsWritten, h, pos) == SiftedDown(Intended, h, pos) <==> SamePath(h, pos)
    decreases |h| - pos
  {
    MinChildPicks(Intended, h, pos);
    MinChildPicks(AsWritten, h, pos);
    var m := MinChild(Intended, h, pos);
    var w := MinChild(AsWritten, h, pos);
    var left := if w == -1 then h else SiftedDown(AsWritten, Swapped(h, pos, w), w);
    var right := if m == -1 then h else SiftedDown(Intended, Swapped(h, pos, m), m);
    assert left == SiftedDown(AsWritten, h, pos) && right == SiftedDown(Intended, h, pos);
    assert left[pos] == h[if w == -1 then pos else w] && right[pos] == h[if m == -1 then pos else m];
    if w != m {
      assert left[pos].id != right[pos].id;
    } else if m != -1 {
      SiftsAgreeIff(Swapped(h, pos, m), m);
    }
  }

  /** From position 2 on no slot `pos << 3 .. (pos << 3) + 3` is a child of `pos`, so the literal sift is right
      exactly when there is nothing to sift and nothing smaller sits in those four unrelated slots. */
  lemma SiftsAgreeBelowIff(h: seq<TimerNode>, pos: nat)
    requires 2 <= pos < |h| && DistinctIds(h)
    ensures SiftedDown(AsWritten, h, pos) == SiftedDown(Intended, h, pos) <==>
      (forall c | (4 * pos + 1 <= c <= 4 * pos + 4 || 8 * pos <= c <= 8 * pos + 3) && c < |h| ::
        h[pos].timer <= h[c].timer)
  {
    SiftsAgreeIff(h, pos);
    MinChildPicks(Intended, h, pos);
    MinChildPicks(AsWritten, h, pos);
    var all := forall c | (4 * pos + 1 <= c <= 4 * pos + 4 || 8 * pos <= c <= 8 * pos + 3) && c < |h| ::
      h[pos].timer <= h[c].timer;
    var w := MinChild(AsWritten, h, pos);
    var m := MinChild(Intended, h, pos);
    if all {
      assert m == -1 && w == -1;
    } else {
      assert m != -1 || w != -1;
    }
  }

  // ---------------------------------------------------------------- order after reset, extend, refit and removal

  /** Order everywhere but around `pos`. */
  ghost predicate OrderedOff(h: seq<TimerNode>, pos: nat)
    requires pos < |h|
  {
    forall k | 0 < k < |h| && k != pos && Parent(k) != pos :: Edge(h, k)
  }

  /** The slot the literal sift exchanges `pos` with, or `pos` itself. */
  function Taken(h: seq<TimerNode>, pos: nat): (w: nat)
    requires pos < |h|
    ensures w < |h|
  {
    MinChildPicks(AsWritten, h, pos);
    if MinChild(AsWritten, h, pos) == -1 then pos else MinChild(AsWritten, h, pos)
  }

  /** Along the literal sift's path, what each slot ends up with fits under its parent and over its true children. */
  ghost predicate FitsAlongPath(h: seq<TimerNode>, pos: nat)
    requires pos < |h|
    decreases |h| - pos
  {
    MinChildPicks(AsWritten, h, pos);
    var w := Taken(h, pos);
    && (pos > 0 ==> h[Parent(pos)].timer <= h[w].timer)
    && (forall c | 4 * pos + 1 <= c <= 4 * pos + 4 && c < |h| && c != w :: h[w].timer <= h[c].timer)
    && (w != pos ==> FitsAlongPath(Swapped(h, pos, w), w))
  }

  /** Besides `pos`, the literal sift touches no slot before `pos << 3`. */
  lemma {:induction false} SiftStaysFar(h: seq<TimerNode>, pos: nat, k: nat)
    requires pos < |h| && k < |h| && k != pos && k < 8 * pos
    ensures SiftedDown(AsWritten, h, pos)[k] == h[k]
    decreases |h| - pos
  {
    MinChildPicks(AsWritten, h, pos);
    var w := MinChild(AsWritten, h, pos);
    if w != -1 {
      SiftStaysFar(Swapped(h, pos, w), w, k);
    }
  }

  /** One exchange whose new value at `pos` fits leaves disorder around the other slot only. */
  lemma StepStaysOff(h: seq<TimerNode>, pos: nat, w: nat)
    requires pos < w < |h| && OrderedOff(h, pos)
    requires pos > 0 ==> h[Parent(pos)].timer <= h[w].timer
    requires forall c | 4 * pos + 1 <= c <= 4 * pos + 4 && c < |h| && c != w :: h[w].timer <= h[c].timer
    ensures OrderedOff(Swapped(h, pos, w), w)
  {
    var g := Swapped(h, pos, w);
    forall k | 0 < k < |g| && k != w && Parent(k) != w
      ensures Edge(g, k)
    {
      if k != pos && Parent(k) != pos {
        assert Edge(h, k);
      } else if k != pos {
        assert 4 * pos + 1 <= k <= 4 * pos + 4;
      }
    }
  }

  lemma StaysInOrder(h: seq<TimerNode>, pos: nat)
    requires pos < |h| && OrderedOff(h, pos)
    requires pos > 0 ==> h[Parent(pos)].timer <= h[pos].timer
    requires forall c | 4 * pos + 1 <= c <= 4 * pos + 4 && c < |h| :: h[pos].timer <= h[c].timer
    ensures Ordered(h)
  {
    forall k | 0 < k < |h|
      ensures Edge(h, k)
    {
      if k != pos && Parent(k) == pos {
        assert 4 * pos + 1 <= k <= 4 * pos + 4;
      }
    }
  }

  /** The literal sift-down of any slot: the result is ordered exactly when its path fits. */
  lemma {:induction false} SiftIsOrderedIff(h: seq<TimerNode>, pos: nat)
    requires pos < |h| && OrderedOff(h, pos)
    ensures Ordered(SiftedDown(AsWritten, h, pos)) <==> FitsAlongPath(h, pos)
    decreases |h| - pos
  {
    MinChildPicks(AsWritten, h, pos);
    var w := Taken(h, pos);
    var r := SiftedDown(AsWritten, h, pos);
    PathStart(h, pos);
    if pos > 0 && h[w].timer < h[Parent(pos)].timer {
      assert !Edge(r, pos);
    } else if !(forall c | 4 * pos + 1 <= c <= 4 * pos + 4 && c < |h| && c != w :: h[w].timer <= h[c].timer) {
      var c :| 4 * pos + 1 <= c <= 4 * pos + 4 && c < |h| && c != w && h[c].timer < h[w].timer;
      assert Parent(c) == pos && !Edge(r, c);
    } else if w == pos {
      StaysInOrder(h, pos);
    } else {
      StepStaysOff(h, pos, w);
      SiftIsOrderedIff(Swapped(h, pos, w), w);
    }
  }

  /** Where the path starts, the result shows the taken timer, and parent and other children as they were. */
  lemma PathStart(h: seq<TimerNode>, pos: nat)
    requires pos < |h|
    ensures var r := SiftedDown(AsWritten, h, pos); var w := Taken(h, pos);
      && r[pos] == h[w]
      && (pos > 0 ==> r[Parent(pos)] == h[Parent(pos)])
      && (forall c | 4 * pos + 1 <= c <= 4 * pos + 4 && c < |h| && c != w :: r[c] == h[c])
  {
    MinChildPicks(AsWritten, h, pos);
    var w := Taken(h, pos);
    if w != pos {
      var g := Swapped(h, pos, w);
      forall c | 4 * pos + 1 <= c <= 4 * pos + 4 && c < |h| && c != w
        ensures SiftedDown(AsWritten, g, w)[c] == h[c]
      {
        SiftStaysFar(g, w, c);
      }
    }
  }

  /** reset and extend as written, for any new deadline: order survives exactly when the path fits. */
  lemma RetimedIsOrderedAsWrittenIff(h: seq<TimerNode>, pos: nat, x: TimerNode)
    requires Ordered(h) && pos < |h|
    ensures Ordered(SiftedDown(AsWritten, h[pos := x], pos)) <==> FitsAlongPath(h[pos := x], pos)
  {
    SlotKeepsAround(h, pos, x);
    SiftIsOrderedIff(h[pos := x], pos);
  }

  /** Lines 90-93 and 114-117: one climb when the sift-down moves nothing, its path otherwise. */
  ghost predicate RefitFits(h: seq<TimerNode>, pos: nat, x: TimerNode)
    requires pos < |h|
  {
    if pos > 0 && MinChild(AsWritten, h[pos := x], pos) == -1 && x.timer < h[Parent(pos)].timer then
      pos <= 4 || h[Parent(Parent(pos))].timer <= x.timer
    else FitsAlongPath(h[pos := x], pos)
  }

  lemma SmallerThanParent(h: seq<TimerNode>, pos: nat, x: TimerNode)
    requires Ordered(h) && 0 < pos < |h| && x.timer < h[Parent(pos)].timer
    ensures OrderedBut(h[pos := x], pos)
  {
    var g := h[pos := x];
    SlotKeepsAround(h, pos, x);
    forall c | 0 < c < |h| && Parent(c) == pos
      ensures Edge(g, c)
    {
      assert g[Parent(pos)].timer <= g[c].timer;
    }
  }

  /** Replacing the timer at any slot, as destory_ and push do: order survives exactly when the refit fits. */
  lemma RefitIsOrderedIff(h: seq<TimerNode>, pos: nat, x: TimerNode)
    requires Ordered(h) && pos < |h|
    ensures Ordered(Refitted(AsWritten, h[pos := x], pos)) <==> RefitFits(h, pos, x)
  {
    var g := h[pos := x];
    MinChildPicks(AsWritten, g, pos);
    if pos > 0 && MinChild(AsWritten, g, pos) == -1 && x.timer < h[Parent(pos)].timer {
      SmallerThanParent(h, pos, x);
      ClimbedOnceIff(g, pos);
    } else {
      RetimedIsOrderedAsWrittenIff(h, pos, x);
    }
  }

  /** remove as written, at any position: order survives exactly when the last timer fits there. */
  lemma RemovedIsOrderedIff(h: seq<TimerNode>, pos: nat)
    requires Ordered(h) && pos < |h|
    ensures var n := |h| - 1;
      Ordered(Removed(AsWritten, h, pos)) <==> (pos == n || RefitFits(h[..n], pos, h[n]))
  {
    var n := |h| - 1;
    forall k | 0 < k < n
      ensures Edge(h[..n], k)
    {
      assert Edge(h, k);
    }
    if pos < n {
      assert Filled(h, pos) == h[..n][pos := h[n]];
      RefitIsOrderedIff(h[..n], pos, h[n]);
    } else {
      assert Filled(h, pos) == h[..n];
    }
  }

  /** A later deadline at slot 1 of six timers is left above its only child: the literal sift looks at slot 8. */
  lemma LaterDeadlineIsNotSifted()
    ensures exists h: seq<TimerNode> ::
      Ordered(h) && |h| == 6 && !Ordered(SiftedDown(AsWritten, h[1 := h[1].(timer := 99)], 1))
  {
    var h := [At(1, 10), At(2, 20), At(3, 20), At(4, 20), At(5, 20), At(6, 30)];
    assert Ordered(h);
    var g := h[1 := h[1].(timer := 99)];
    MinChildPicks(AsWritten, g, 1);
    assert SiftedDown(AsWritten, g, 1) == g;
    assert !Edge(g, 5);
    assert Ordered(h) && |h| == 6 && !Ordered(SiftedDown(AsWritten, h[1 := h[1].(timer := 99)], 1));
  }
}
