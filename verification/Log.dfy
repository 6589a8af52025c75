/** src/base/log.cc after init: appenders and the writer thread as atomic steps. append and refresh_ run under the
    mutex, and so does the writer's hand-over; its file writes touch only what it has taken, one buffer a step.
    A unique_ptr slot is `Null` or holds a buffer; a buffer has an identity, so that ownership can be stated.
    A step that is not enabled leaves the state alone: every sequence of steps is a run. */
module Logs {

  const SIZE: nat := 4000
  const NUL: char := '\0'

  datatype Buf = Buf(id: nat, text: string)
  datatype Slot = Null | Held(buf: Buf)

  /** The writer waits at its loop head, or has written out the first `count` taken buffers. */
  datatype Phase = Waiting | Writing(count: nat)

  /** `failed`: a null slot was used or an assertion of thread_func failed. The last three are histories: all
      appended text, its part at the last hand-over, and what was passed to fputs. */
  datatype State = State(
    curr: Slot, next: Slot, full: seq<Buf>,
    spare1: Slot, spare2: Slot, taken: seq<Buf>,
    phase: Phase, file: string, nextId: nat, failed: bool,
    appended: string, claimed: string, written: string)

  datatype Step =
    | Append(line: string)   // lines 57-68
    | Loading                // log.h lines 66-70
    | Take                   // lines 81-95
    | WriteOne               // lines 98-99
    | Recycle                // lines 101-120

  const INITIAL := State(
    Held(Buf(0, "")), Held(Buf(1, "")), [], Held(Buf(2, "")), Held(Buf(3, "")), [],
    Waiting, "", 4, false, "", "", "")

  /** What fputs writes of a string: the part before its first NUL. */
  function BeforeNul(text: string): (r: string)
    ensures |r| <= |text|
    ensures r == text <==> NUL !in text
  {
    if text == "" || text[0] == NUL then "" else
      var rest := BeforeNul(text[1..]);
      assert text == [text[0]] + text[1..];
      [text[0]] + rest
  }

  /** refresh_: the current buffer joins the full ones and the next one, or a new one, takes its place. */
  function Refresh(s: State, line: string): State {
    if s.curr.Null? then s.(failed := true) else
    var b := if s.next.Held? then s.next.buf else Buf(s.nextId, "");
    s.(full := s.full + [s.curr.buf], next := Null, curr := Held(b.(text := b.text + line)),
       nextId := if s.next.Held? then s.nextId else s.nextId + 1)
  }

  /** An empty spare slot is refilled with the last taken buffer. */
  function Refill(spare: Slot, taken: seq<Buf>): (Slot, seq<Buf>)
    requires spare.Null? ==> taken != []
  {
    if spare.Held? then (spare, taken)
    else (Held(taken[|taken| - 1].(text := "")), taken[..|taken| - 1])
  }

  function Recycled(s: State): State {
    var kept := if |s.taken| > 2 then s.taken[..2] else s.taken;
    if s.spare1.Null? && kept == [] then s.(failed := true) else
    var (spare1, kept1) := Refill(s.spare1, kept);
    if s.spare2.Null? && kept1 == [] then s.(failed := true) else
    var (spare2, _) := Refill(s.spare2, kept1);
    s.(spare1 := spare1, spare2 := spare2, taken := [], phase := Waiting)
  }

  function Apply(s: State, step: Step): State {
    match step
    case Append(line) =>
      if s.curr.Null? then s.(failed := true)
      else if |s.curr.buf.text| + |line| < SIZE then
        s.(curr := Held(s.curr.buf.(text := s.curr.buf.text + line)), appended := s.appended + line)
      else Refresh(s, line).(appended := s.appended + line)
    case Loading => Refresh(s, "")
    case Take =>
      if !s.phase.Waiting? then s
      else if s.curr.Null? then s.(failed := true)
      else s.(taken := s.full + [s.curr.buf], full := [], curr := s.spare1, spare1 := Null,
              next := if s.next.Null? then s.spare2 else s.next,
              spare2 := if s.next.Null? then Null else s.spare2,
              phase := Writing(0), claimed := s.appended)
    case WriteOne =>
      if !s.phase.Writing? || s.phase.count >= |s.taken| then s
      else
        var k := s.phase.count;
        var text := s.taken[k].text;
        s.(file := s.file + BeforeNul(text), written := s.written + text,
           taken := s.taken[k := s.taken[k].(text := "")], phase := Writing(k + 1))
    case Recycle =>
      if !s.phase.Writing? || s.phase.count < |s.taken| then s else Recycled(s)
  }

  function After(steps: seq<Step>): State {
    if steps == [] then INITIAL else Apply(After(steps[..|steps| - 1]), steps[|steps| - 1])
  }

  // ---------------------------------------------------------------- contents and ownership

  function Texts(bs: seq<Buf>): string {
    if bs == [] then "" else Texts(bs[..|bs| - 1]) + bs[|bs| - 1].text
  }

  function Unwritten(s: State): string {
    Texts(s.taken) + Texts(s.full) + if s.curr.Held? then s.curr.buf.text else ""
  }

  function Ids(bs: seq<Buf>): multiset<nat> {
    if bs == [] then multiset{} else Ids(bs[..|bs| - 1]) + multiset{bs[|bs| - 1].id}
  }

  function SlotIds(slot: Slot): multiset<nat> {
    if slot.Null? then multiset{} else multiset{slot.buf.id}
  }

  /** The owners: four slots and two vectors. */
  function Owned(s: State): multiset<nat> {
    SlotIds(s.curr) + SlotIds(s.next) + Ids(s.full) + SlotIds(s.spare1) + SlotIds(s.spare2) + Ids(s.taken)
  }

  ghost predicate OneOwnerEach(s: State) {
    forall id | id in Owned(s) :: Owned(s)[id] == 1 && id < s.nextId
  }

  ghost predicate Blank(slot: Slot) {
    slot.Held? ==> slot.buf.text == ""
  }

  /** What the two assertions of thread_func and every use of a slot rest on. */
  ghost predicate Stocked(s: State) {
    && !s.failed && s.curr.Held?
    && Blank(s.next) && Blank(s.spare1) && Blank(s.spare2)
    && (s.next.Null? ==> s.full != [])
    && match s.phase
       case Waiting => s.spare1.Held? && s.spare2.Held? && s.taken == []
       case Writing(count) =>
         s.spare1.Null? && 1 <= |s.taken| && count <= |s.taken| && (s.spare2.Null? ==> 2 <= |s.taken|)
  }

  ghost predicate Accounted(s: State) {
    && s.written + Unwritten(s) == s.appended
    && s.written + Texts(s.taken) == s.claimed
    && (s.phase.Writing? ==> forall i | 0 <= i < s.phase.count && i < |s.taken| :: s.taken[i].text == "")
  }

  /** The file is what was passed to fputs exactly while that was free of NUL characters. */
  ghost predicate Filed(s: State) {
    && |s.file| <= |s.written|
    && (s.file == s.written <==> NUL !in s.written)
  }

  ghost predicate Inv(s: State) {
    Stocked(s) && OneOwnerEach(s) && Accounted(s) && Filed(s)
  }

  lemma {:induction false} BlankTexts(bs: seq<Buf>)
    requires forall i | 0 <= i < |bs| :: bs[i].text == ""
    ensures Texts(bs) == ""
  {
    if bs != [] {
      BlankTexts(bs[..|bs| - 1]);
    }
  }

  /** Blanking the first non-blank buffer takes its text off the front. */
  lemma {:induction false} TextsWrite(bs: seq<Buf>, k: nat)
    requires k < |bs| && forall i | 0 <= i < k :: bs[i].text == ""
    ensures Texts(bs) == bs[k].text + Texts(bs[k := bs[k].(text := "")])
    ensures Ids(bs) == Ids(bs[k := bs[k].(text := "")])
  {
    var last := |bs| - 1;
    var bs' := bs[k := bs[k].(text := "")];
    if k == last {
      BlankTexts(bs[..last]);
      assert bs'[..last] == bs[..last];
    } else {
      TextsWrite(bs[..last], k);
      assert bs'[..last] == bs[..last][k := bs[k].(text := "")];
    }
  }

  lemma {:induction false} IdsPrefix(bs: seq<Buf>, n: nat)
    requires n <= |bs|
    ensures Ids(bs[..n]) <= Ids(bs)
  {
    if n < |bs| {
      assert bs[..|bs| - 1][..n] == bs[..n];
      IdsPrefix(bs[..|bs| - 1], n);
    } else {
      assert bs[..n] == bs;
    }
  }

  lemma Snoc(bs: seq<Buf>, b: Buf)
    ensures Texts(bs + [b]) == Texts(bs) + b.text && Ids(bs + [b]) == Ids(bs) + multiset{b.id}
  {
  }

  // ---------------------------------------------------------------- every step keeps the invariant

  lemma SameOwners(s: State, t: State)
    requires OneOwnerEach(s) && Owned(t) <= Owned(s) && t.nextId == s.nextId
    ensures OneOwnerEach(t)
  {
  }

  lemma RefreshOwners(s: State, line: string)
    requires OneOwnerEach(s) && s.curr.Held?
    ensures OneOwnerEach(Refresh(s, line))
  {
    Snoc(s.full, s.curr.buf);
    var t := Refresh(s, line);
    if s.next.Held? {
      assert Owned(t) == Owned(s);
      SameOwners(s, t);
    } else {
      assert Owned(t) == Owned(s) + multiset{s.nextId};
      assert Owned(s)[s.nextId] == 0;
    }
  }

  lemma RefreshAccounts(s: State, line: string)
    requires Accounted(s) && s.curr.Held? && Blank(s.next)
    ensures Accounted(Refresh(s, line).(appended := s.appended + line))
  {
  }

  lemma Regroup(a: string, b: string, c: string, d: string)
    ensures a + (b + c) + d == a + b + c + d
    ensures b + (c + d) == b + c + d
  {
  }

  lemma RefreshPreserves(s: State, line: string)
    requires Inv(s)
    ensures Inv(Refresh(s, line).(appended := s.appended + line))
  {
    RefreshOwners(s, line);
    RefreshAccounts(s, line);
    var t := Refresh(s, line);
    var t' := t.(appended := s.appended + line);
    assert Owned(t') == Owned(t);
  }

  lemma TakeOwners(s: State)
    requires Stocked(s) && OneOwnerEach(s) && s.phase.Waiting?
    ensures OneOwnerEach(Apply(s, Take))
  {
    var t := Apply(s, Take);
    Snoc(s.full, s.curr.buf);
    assert Owned(t) == Owned(s);
    SameOwners(s, t);
  }

  lemma TakeAccounts(s: State)
    requires Stocked(s) && Accounted(s) && s.phase.Waiting?
    ensures Accounted(Apply(s, Take))
  {
  }

  lemma TakePreserves(s: State)
    requires Inv(s) && s.phase.Waiting?
    ensures Inv(Apply(s, Take))
  {
    TakeOwners(s);
    TakeAccounts(s);
  }

  lemma NulSplit(a: string, b: string)
    ensures NUL !in a + b <==> NUL !in a && NUL !in b
  {
  }

  lemma ConcatEqualIff(a: string, b: string, c: string, d: string)
    requires |a| <= |b| && |c| <= |d|
    ensures a + c == b + d <==> a == b && c == d
  {
    if a + c == b + d {
      assert |a + c| == |a| + |c| && |b + d| == |b| + |d|;
      assert a == (a + c)[..|a|] && b == (b + d)[..|b|];
      assert c == (a + c)[|a|..] && d == (b + d)[|b|..];
    }
  }

  lemma WriteFiles(s: State)
    requires Filed(s) && s.phase.Writing? && s.phase.count < |s.taken|
    ensures Filed(Apply(s, WriteOne))
  {
    var text := s.taken[s.phase.count].text;
    NulSplit(s.written, text);
    ConcatEqualIff(s.file, s.written, BeforeNul(text), text);
  }

  lemma WriteAccounts(s: State)
    requires Accounted(s) && s.phase.Writing? && s.phase.count < |s.taken|
    ensures Accounted(Apply(s, WriteOne))
  {
    var t := Apply(s, WriteOne);
    var k := s.phase.count;
    var text := s.taken[k].text;
    var curr := if s.curr.Held? then s.curr.buf.text else "";
    TextsWrite(s.taken, k);
    Regroup("", s.written, text, Texts(t.taken));
    Regroup(s.written, text, Texts(t.taken), Texts(s.full) + curr);
    assert t.written + Texts(t.taken) == s.written + Texts(s.taken);
    Regroup("", t.written, Texts(t.taken), Texts(s.full));
    Regroup("", s.written, Texts(s.taken), Texts(s.full));
    Regroup("", t.written, Texts(t.taken) + Texts(s.full), curr);
    Regroup("", s.written, Texts(s.taken) + Texts(s.full), curr);
    assert t.written + Unwritten(t) == s.written + Unwritten(s);
  }

  lemma WriteOwners(s: State)
    requires Stocked(s) && OneOwnerEach(s) && Accounted(s) && s.phase.Writing? && s.phase.count < |s.taken|
    ensures Stocked(Apply(s, WriteOne)) && OneOwnerEach(Apply(s, WriteOne))
  {
    var t := Apply(s, WriteOne);
    TextsWrite(s.taken, s.phase.count);
    assert Ids(t.taken) == Ids(s.taken);
    assert Owned(t) == Owned(s);
    SameOwners(s, t);
  }

  lemma WritePreserves(s: State)
    requires Inv(s) && s.phase.Writing? && s.phase.count < |s.taken|
    ensures Inv(Apply(s, WriteOne))
  {
    WriteFiles(s);
    WriteAccounts(s);
    WriteOwners(s);
  }

  lemma RefillOwners(spare: Slot, taken: seq<Buf>)
    requires spare.Null? ==> taken != []
    ensures var (spare', taken') := Refill(spare, taken);
      SlotIds(spare') + Ids(taken') == SlotIds(spare) + Ids(taken)
  {
  }

  lemma RecycleOwners(s: State)
    requires Stocked(s) && OneOwnerEach(s) && s.phase.Writing?
    ensures OneOwnerEach(Recycled(s)) && Stocked(Recycled(s))
  {
    var t := Recycled(s);
    var kept := if |s.taken| > 2 then s.taken[..2] else s.taken;
    assert kept == s.taken[..|kept|];
    IdsPrefix(s.taken, |kept|);
    RefillOwners(s.spare1, kept);
    var (spare1, kept1) := Refill(s.spare1, kept);
    RefillOwners(s.spare2, kept1);
    var (spare2, kept2) := Refill(s.spare2, kept1);
    assert t == s.(spare1 := spare1, spare2 := spare2, taken := [], phase := Waiting);
    assert Ids(t.taken) == multiset{};
    assert Owned(t) <= Owned(s);
    SameOwners(s, t);
  }

  lemma RecyclePreserves(s: State)
    requires Inv(s) && s.phase.Writing? && s.phase.count >= |s.taken|
    ensures Inv(Apply(s, Recycle))
  {
    RecycleOwners(s);
    BlankTexts(s.taken);
  }

  lemma AppendShort(s: State, line: string)
    requires Inv(s) && |s.curr.buf.text| + |line| < SIZE
    ensures Inv(Apply(s, Append(line)))
  {
    var t := Apply(s, Append(line));
    assert Owned(t) == Owned(s);
    SameOwners(s, t);
    Regroup(Texts(s.taken), Texts(s.full), s.curr.buf.text, line);
    Regroup("", s.written, Unwritten(s), line);
    Regroup("", Texts(s.taken) + Texts(s.full), s.curr.buf.text, line);
    assert Unwritten(t) == Unwritten(s) + line;
  }

  lemma AppendPreserves(s: State, line: string)
    requires Inv(s)
    ensures Inv(Apply(s, Append(line)))
  {
    if |s.curr.buf.text| + |line| < SIZE {
      AppendShort(s, line);
    } else {
      RefreshPreserves(s, line);
    }
  }

  lemma Preserved(s: State, step: Step)
    requires Inv(s)
    ensures Inv(Apply(s, step))
  {
    match step
    case Append(line) => AppendPreserves(s, line);
    case Loading =>
      RefreshPreserves(s, "");
      assert s.appended + "" == s.appended;
    case Take =>
      if s.phase.Waiting? {
        TakePreserves(s);
      }
    case WriteOne =>
      if s.phase.Writing? && s.phase.count < |s.taken| {
        WritePreserves(s);
      }
    case Recycle =>
      if s.phase.Writing? && s.phase.count >= |s.taken| {
        RecyclePreserves(s);
      }
  }

  lemma {:induction false} Invariant(steps: seq<Step>)
    ensures Inv(After(steps))
  {
    if steps != [] {
      Invariant(steps[..|steps| - 1]);
      Preserved(After(steps[..|steps| - 1]), steps[|steps| - 1]);
    } else {
      assert Owned(INITIAL) == multiset{0, 1, 2, 3};
    }
  }

  // ---------------------------------------------------------------- the theorems

  /** The lines handed to append, in the order of the calls. */
  function LinesOf(steps: seq<Step>): string {
    if steps == [] then ""
    else
      LinesOf(steps[..|steps| - 1]) +
      match steps[|steps| - 1]
      case Append(line) => line
      case _ => ""
  }

  lemma {:induction false} AppendedIsLines(steps: seq<Step>)
    ensures After(steps).appended == LinesOf(steps)
  {
    if steps != [] {
      AppendedIsLines(steps[..|steps| - 1]);
      Invariant(steps[..|steps| - 1]);
    }
  }

  /** For any interleaving: file content, then taken buffers, full buffers and the current one, are all lines in the
      order of the calls, exactly when the part of the lines that has left the buffers holds no NUL. */
  lemma NothingLostIff(steps: seq<Step>)
    ensures var (s, lines) := (After(steps), LinesOf(steps)); var gone := |lines| - |Unwritten(s)|;
      gone >= 0 && (s.file + Unwritten(s) == lines <==> NUL !in lines[..gone])
  {
    Invariant(steps);
    AppendedIsLines(steps);
    var s := After(steps);
    assert s.appended[..|s.written|] == s.written;
    if s.file + Unwritten(s) == s.appended {
      assert |s.file| == |s.written|;
      assert s.file == s.appended[..|s.file|] == s.written;
    }
  }

  /** NUL-free lines in, nothing lost or reordered. */
  lemma NothingLost(steps: seq<Step>)
    requires NUL !in LinesOf(steps)
    ensures After(steps).file + Unwritten(After(steps)) == LinesOf(steps)
  {
    NothingLostIff(steps);
  }

  lemma {:induction false} LinesGrow(steps: seq<Step>, more: seq<Step>)
    ensures LinesOf(steps) <= LinesOf(steps + more)
    decreases |more|
  {
    if more == [] {
      assert steps + more == steps;
    } else {
      LinesGrow(steps, more[..|more| - 1]);
      assert (steps + more)[..|steps + more| - 1] == steps + more[..|more| - 1];
    }
  }

  lemma AfterSnoc(steps: seq<Step>, step: Step)
    ensures After(steps + [step]) == Apply(After(steps), step)
  {
    assert (steps + [step])[..|steps|] == steps;
  }

  lemma ClaimStep(s: State, step: Step)
    requires Inv(s)
    ensures Apply(s, step).claimed == if step.Take? && s.phase.Waiting? then s.appended else s.claimed
  {
  }

  lemma ClaimedNow(steps: seq<Step>)
    requires After(steps).phase.Waiting?
    ensures After(steps + [Take]).claimed == LinesOf(steps)
  {
    Invariant(steps);
    AppendedIsLines(steps);
    AfterSnoc(steps, Take);
    ClaimStep(After(steps), Take);
  }

  lemma ClaimedStill(steps: seq<Step>, step: Step, lines: string)
    requires lines <= After(steps).claimed && lines <= LinesOf(steps)
    ensures lines <= After(steps + [step]).claimed
  {
    Invariant(steps);
    AppendedIsLines(steps);
    AfterSnoc(steps, step);
    ClaimStep(After(steps), step);
  }

  /** What a hand-over claims stays claimed. */
  lemma {:induction false} ClaimedLasts(steps: seq<Step>, more: seq<Step>)
    requires After(steps).phase.Waiting?
    ensures LinesOf(steps) <= After(steps + [Take] + more).claimed
    decreases |more|
  {
    if more == [] {
      ClaimedNow(steps);
      assert steps + [Take] + more == steps + [Take];
    } else {
      var rest := steps + [Take] + more[..|more| - 1];
      ClaimedLasts(steps, more[..|more| - 1]);
      LinesGrow(steps, [Take] + more[..|more| - 1]);
      assert rest == steps + ([Take] + more[..|more| - 1]);
      ClaimedStill(rest, more[|more| - 1], LinesOf(steps));
      assert rest + [more[|more| - 1]] == steps + [Take] + more;
    }
  }

  /** Every line appended before a hand-over is in the file, whatever happens meanwhile, as soon as the writer is
      back at its loop head. */
  lemma RoundWritesAllClaimed(steps: seq<Step>, more: seq<Step>)
    requires After(steps).phase.Waiting? && After(steps + [Take] + more).phase.Waiting?
    requires NUL !in LinesOf(steps + [Take] + more)
    ensures LinesOf(steps) <= After(steps + [Take] + more).file <= LinesOf(steps + [Take] + more)
  {
    var all := steps + [Take] + more;
    ClaimedLasts(steps, more);
    Invariant(all);
    AppendedIsLines(all);
    var s := After(all);
    NulSplit(s.written, Unwritten(s));
    assert s.written == s.claimed && s.appended == s.written + Unwritten(s);
  }

  function Writes(n: nat): seq<Step> {
    if n == 0 then [] else Writes(n - 1) + [WriteOne]
  }

  lemma WriteStep(s: State)
    requires s.phase.Writing? && s.phase.count < |s.taken|
    ensures var t := Apply(s, WriteOne); t.phase == Writing(s.phase.count + 1) && |t.taken| == |s.taken|
  {
  }

  /** `count` of `size` taken buffers have been written. */
  ghost predicate WrittenSoFar(s: State, count: nat, size: nat) {
    s.phase == Writing(count) && |s.taken| == size
  }

  lemma WriteMore(steps: seq<Step>, count: nat, size: nat)
    requires WrittenSoFar(After(steps), count, size) && count < size
    ensures WrittenSoFar(After(steps + [WriteOne]), count + 1, size)
  {
    AfterSnoc(steps, WriteOne);
    WriteStep(After(steps));
  }

  lemma {:induction false} WritesCount(steps: seq<Step>, n: nat, count: nat, size: nat)
    requires WrittenSoFar(After(steps), count, size) && count + n <= size
    ensures WrittenSoFar(After(steps + Writes(n)), count + n, size)
  {
    if n == 0 {
      assert steps + Writes(n) == steps;
    } else {
      var before := steps + Writes(n - 1);
      WritesCount(steps, n - 1, count, size);
      WriteMore(before, count + n - 1, size);
      assert steps + Writes(n) == before + [WriteOne];
    }
  }

  lemma RecycleReturns(steps: seq<Step>)
    requires After(steps).phase.Writing? && After(steps).phase.count == |After(steps).taken|
    ensures After(steps + [Recycle]).phase.Waiting?
  {
    Invariant(steps);
    AfterSnoc(steps, Recycle);
    RecycleOwners(After(steps));
  }

  /** And its own steps bring it back there: one for each buffer it took and has not written, and the recycling. */
  lemma WriterReturns(steps: seq<Step>, unwritten: int)
    requires After(steps).phase.Writing? && unwritten == |After(steps).taken| - After(steps).phase.count
    ensures unwritten >= 0 && After(steps + Writes(unwritten) + [Recycle]).phase.Waiting?
  {
    CountIsBounded(steps);
    WritesCount(steps, unwritten, After(steps).phase.count, |After(steps).taken|);
    RecycleReturns(steps + Writes(unwritten));
  }

  lemma CountIsBounded(steps: seq<Step>)
    ensures After(steps).phase.Writing? ==> After(steps).phase.count <= |After(steps).taken|
  {
    Invariant(steps);
  }

  /** No assertion of the writer fails, no empty slot is used, the current slot is never empty, every buffer has
      one owner, buffers in reserve are empty, and at the loop head both spares are in stock. */
  lemma OwnershipHolds(steps: seq<Step>)
    ensures var s := After(steps);
      && !s.failed && s.curr.Held? && OneOwnerEach(s)
      && (s.next.Null? ==> s.full != [])
      && (s.phase.Waiting? ==> s.spare1.Held? && s.spare2.Held?)
      && Blank(s.next) && Blank(s.spare1) && Blank(s.spare2)
  {
    Invariant(steps);
  }
}
