/** The life of a connection across the accepting loop and the I/O loops: src/server/tcpserver.cc:51-90,
    build_connect, destroy_connect, handle_close_, start_read, stop_read and the destructor of
    src/server/tcpconnection.cc, and the registration status of src/event/epoller.cc:62-137.

    A task handed to another loop is a separate step; on its own loop run_in_loop runs it at once. Steps of any
    connections interleave in any order, and a step that is not enabled leaves the state alone.

    Line 84 of epoller.cc asserts that a channel with status DEL is not in the map; the channel is in the map then,
    and form `Intended` asserts that. */
module Lifecycles {
  import opened SourceForm
  import TcpConnections

  type Status = TcpConnections.Status

  // ---------------------------------------------------------------- the poller

  datatype Tag = NEW | ADD | DEL

  /** What a channel asks for, and what the poller knows of it: its status mark, and whether it is in the map. */
  datatype Channel = Channel(reading: bool, writing: bool, tag: Tag, mapped: bool)

  predicate NoEvents(ch: Channel) {
    !ch.reading && !ch.writing
  }

  /** The assertions of Epoller::update_channel. */
  predicate UpdateFails(form: Form, ch: Channel) {
    match ch.tag
    case NEW => ch.mapped
    case DEL => if form.AsWritten? then ch.mapped else !ch.mapped
    case ADD => false
  }

  /** Epoller::update_channel. */
  function Update(ch: Channel): Channel {
    match ch.tag
    case NEW => ch.(mapped := true, tag := ADD)
    case DEL => ch.(tag := ADD)
    case ADD => if NoEvents(ch) then ch.(tag := DEL) else ch
  }

  /** As written, updating a channel the poller knows fails exactly when it is marked DEL. */
  lemma UpdateFailsIff(ch: Channel)
    requires ch.mapped <==> !ch.tag.NEW?
    ensures UpdateFails(AsWritten, ch) <==> ch.tag.DEL?
    ensures !UpdateFails(Intended, ch)
    ensures Update(ch).mapped && !Update(ch).tag.NEW?
  {
  }

  // ---------------------------------------------------------------- one connection

  /** Tasks waiting in the loops. */
  datatype Tasks = Tasks(builds: nat, removes: nat, destroys: nat)

  /** Connection callbacks made, up and down, and runs of destroy_connect. */
  datatype Counts = Counts(ups: nat, downs: nat, destroyed: nat)

  /** `listed`: in the server's map. `released`: the last reference is gone. `failed`: an assertion failed. */
  datatype Conn = Conn(
    status: Status, readFlag: bool, ch: Channel, tasks: Tasks, counts: Counts,
    sameLoop: bool, listed: bool, released: bool, failed: bool)

  datatype Event =
    | Build           // build_connect
    | Hangup          // handle_close_, from a hang-up or a read of zero bytes
    | DoubleHangup    // handle_close_ twice, from two handlers of one poll result
    | StartRead       // start_read_in_loop_
    | StopRead        // stop_read_in_loop_
    | WantWrite       // send_in_loop_ leaves bytes in the buffer
    | Drained         // handle_write_ empties the buffer
    | HalfClose       // shutdown_in_loop_
    | Remove          // remove_connection_in_loop
    | Destroy         // destroy_connect
    | Release         // the destructors of the connection and its channel

  function NewConn(sameLoop: bool): Conn {
    Conn(TcpConnections.Connecting, true, Channel(false, false, NEW, false), Tasks(1, 0, 0), Counts(0, 0, 0),
         sameLoop, true, false, false)
  }

  predicate Open(c: Conn) {
    c.status.Connected? || c.status.Disconnecting?
  }

  /** The poller reports the channel, or has reported it before another handler of the same round stopped reading. */
  predicate Reported(c: Conn) {
    c.ch.tag.ADD? || (c.ch.tag.DEL? && Open(c))
  }

  predicate Enabled(c: Conn, e: Event) {
    !c.failed && !c.released &&
    match e
    case Build => c.tasks.builds > 0
    case Hangup => Reported(c)
    case DoubleHangup => Reported(c)
    case StartRead => !c.status.Connecting?
    case StopRead => !c.status.Connecting?
    case WantWrite => Open(c) && !c.ch.writing
    case Drained => c.ch.tag.ADD? && c.ch.writing
    case HalfClose => true
    case Remove => c.tasks.removes > 0
    case Destroy => c.tasks.destroys > 0
    case Release => !c.listed && c.tasks == Tasks(0, 0, 0)
  }

  function Rank(s: Status): nat {
    match s
    case Connecting => 0
    case Connected => 1
    case Disconnecting => 2
    case Disconnected => 3
  }

  /** Status never moves backwards, and an erased entry does not come back. */
  predicate Advances(c: Conn, r: Conn) {
    Rank(r.status) >= Rank(c.status) && (r.listed ==> c.listed)
  }

  /** Channel::update_ after a change of interest. */
  function Changed(form: Form, c: Conn, ch: Channel): (r: Conn)
    ensures Advances(c, r)
  {
    if UpdateFails(form, ch) then c.(failed := true) else c.(ch := Update(ch))
  }

  /** Channel::remove with Epoller::remove_channel: both assertions. */
  function Unregistered(c: Conn): (r: Conn)
    ensures Advances(c, r)
  {
    if !NoEvents(c.ch) || c.ch.tag.NEW? then c.(failed := true)
    else c.(ch := c.ch.(mapped := false, tag := NEW))
  }

  function Built(form: Form, c: Conn): (r: Conn)
    requires c.tasks.builds > 0
    ensures Advances(c, r)
  {
    if !c.status.Connecting? then c.(failed := true)
    else
      Changed(form, c.(status := TcpConnections.Connected, tasks := c.tasks.(builds := c.tasks.builds - 1),
                       counts := c.counts.(ups := c.counts.ups + 1)),
              c.ch.(reading := true))
  }

  function Destroyed(form: Form, c: Conn): (r: Conn)
    ensures Advances(c, r)
  {
    var c1 := c.(counts := c.counts.(destroyed := c.counts.destroyed + 1));
    if c1.status.Connected? then
      var c2 := Changed(form, c1.(status := TcpConnections.Disconnecting,
                                  counts := c1.counts.(downs := c1.counts.downs + 1)),
                        c1.ch.(reading := false, writing := false));
      if c2.failed then c2 else Unregistered(c2)
    else Unregistered(c1)
  }

  /** `erased` is what map::erase returned. */
  function Removed(form: Form, c: Conn, erased: nat): (r: Conn)
    ensures Advances(c, r)
  {
    if erased != 1 then c.(failed := true, listed := false)
    else if c.sameLoop then Destroyed(form, c.(listed := false))
    else c.(listed := false, tasks := c.tasks.(destroys := c.tasks.destroys + 1))
  }

  /** handle_close_ up to close_cb_, which hands the removal to the accepting loop. */
  function Closed(form: Form, c: Conn): (r: Conn)
    ensures Advances(c, r)
  {
    if !Open(c) then c.(failed := true)
    else
      Changed(form, c.(status := TcpConnections.Disconnected, counts := c.counts.(downs := c.counts.downs + 1)),
              c.ch.(reading := false, writing := false))
  }

  function HungUp(form: Form, c: Conn, erased: nat): (r: Conn)
    ensures Advances(c, r)
  {
    var c1 := Closed(form, c);
    if c1.failed then c1
    else if c1.sameLoop then Removed(form, c1, erased)
    else c1.(tasks := c1.tasks.(removes := c1.tasks.removes + 1))
  }

  function ReadStarted(form: Form, c: Conn): (r: Conn)
    ensures Advances(c, r)
  {
    if !c.readFlag || !c.ch.reading then
      Changed(form, c.(readFlag := true), c.ch.(reading := true))
    else c
  }

  function ReadStopped(form: Form, c: Conn): (r: Conn)
    ensures Advances(c, r)
  {
    if c.readFlag || c.ch.reading then
      Changed(form, c.(readFlag := false),
              c.ch.(reading := false))
    else c
  }

  /** ~TcpConnection and ~Channel; added_to_loop_ is set by every update and cleared by remove. */
  function Released(c: Conn): (r: Conn)
    ensures Advances(c, r)
  {
    if !c.status.Disconnected? || !c.ch.tag.NEW? then c.(failed := true) else c.(released := true)
  }

  function After(form: Form, c: Conn, e: Event, erased: nat): (r: Conn)
    ensures Advances(c, r)
  {
    if !Enabled(c, e) then c else
    match e
    case Build => Built(form, c)
    case Hangup => HungUp(form, c, erased)
    case DoubleHangup => HungUp(form, HungUp(form, c, erased), 0)
    case StartRead => ReadStarted(form, c)
    case StopRead => ReadStopped(form, c)
    case WantWrite => Changed(form, c, c.ch.(writing := true))
    case Drained => Changed(form, c, c.ch.(writing := false))
    case HalfClose => if c.status.Connected? then c.(status := TcpConnections.Disconnecting) else c
    case Remove => Removed(form, c.(tasks := c.tasks.(removes := c.tasks.removes - 1)), erased)
    case Destroy => Destroyed(form, c.(tasks := c.tasks.(destroys := c.tasks.destroys - 1)))
    case Release => Released(c)
  }

  // ---------------------------------------------------------------- the three stages

  /** The poller's mark agrees with its map, and a channel marked DEL asks for nothing. */
  ghost predicate Known(ch: Channel) {
    (ch.mapped <==> !ch.tag.NEW?) && (ch.tag.DEL? ==> NoEvents(ch))
  }

  ghost predicate Waiting(c: Conn) {
    && c.status.Connecting? && c.listed && !c.released && c.readFlag
    && c.tasks == Tasks(1, 0, 0) && c.counts == Counts(0, 0, 0) && c.ch == Channel(false, false, NEW, false)
  }

  ghost predicate Serving(c: Conn) {
    && Open(c) && c.listed && !c.released && (c.readFlag <==> c.ch.reading)
    && c.tasks == Tasks(0, 0, 0) && c.counts == Counts(1, 0, 0) && Known(c.ch) && !c.ch.tag.NEW?
  }

  /** Closed; what is left of its way out is a removal, a destruction, or nothing. Reading may have been started or
      stopped since. */
  ghost predicate Leaving(c: Conn) {
    && c.status.Disconnected? && Known(c.ch) && !c.ch.writing
    && (c.released ==> c.counts.destroyed == 1 && c.ch.tag.NEW?)
    && ((c.listed && c.tasks == Tasks(0, 1, 0) && c.counts == Counts(1, 1, 0) && !c.ch.tag.NEW?)
     || (!c.listed && c.tasks == Tasks(0, 0, 1) && c.counts == Counts(1, 1, 0) && !c.ch.tag.NEW?)
     || (!c.listed && c.tasks == Tasks(0, 0, 0) && c.counts == Counts(1, 1, 1)))
  }

  /** A connection on which no assertion has failed is in one of its stages, and every callback and task has happened
      as often as the stage says. */
  ghost predicate ConnInv(c: Conn) {
    c.failed || Waiting(c) || Serving(c) || Leaving(c)
  }

  // ---------------------------------------------------------------- exactly which steps fail

  /** The event changes the channel's interest and so updates the poller. */
  predicate Updates(c: Conn, e: Event) {
    match e
    case StartRead => !c.readFlag || !c.ch.reading
    case StopRead => c.readFlag || c.ch.reading
    case WantWrite => true
    case Hangup => true
    case _ => false
  }

  /** A connection is closed again, destroyed while it asks for input, or released while its channel is registered;
      as written also any change of interest while the poller has the channel marked DEL. */
  predicate Fails(form: Form, c: Conn, e: Event) {
    || e.DoubleHangup?
    || (e.Release? && !c.ch.tag.NEW?)
    || (c.status.Disconnected? && (e.Hangup? || (c.ch.reading && (e.Destroy? || (e.Remove? && c.sameLoop)))))
    || (form.AsWritten? && c.ch.tag.DEL? && Updates(c, e))
  }

  lemma HangupFailsIff(form: Form, c: Conn)
    requires ConnInv(c) && Enabled(c, Hangup)
    ensures HungUp(form, c, if c.listed then 1 else 0).failed <==> Fails(form, c, Hangup)
    ensures ConnInv(HungUp(form, c, if c.listed then 1 else 0))
    ensures !Open(HungUp(form, c, if c.listed then 1 else 0))
  {
  }

  lemma RemoveFailsIff(form: Form, c: Conn)
    requires ConnInv(c) && Enabled(c, Remove)
    ensures After(form, c, Remove, if c.listed then 1 else 0).failed <==> Fails(form, c, Remove)
    ensures ConnInv(After(form, c, Remove, if c.listed then 1 else 0))
  {
  }

  lemma DestroyFailsIff(form: Form, c: Conn, erased: nat)
    requires ConnInv(c) && Enabled(c, Destroy)
    ensures After(form, c, Destroy, erased).failed <==> Fails(form, c, Destroy)
    ensures ConnInv(After(form, c, Destroy, erased))
  {
  }

  lemma StartReadFailsIff(form: Form, c: Conn, erased: nat)
    requires ConnInv(c) && Enabled(c, StartRead)
    ensures After(form, c, StartRead, erased).failed <==> Fails(form, c, StartRead)
    ensures ConnInv(After(form, c, StartRead, erased))
  {
  }

  lemma StopReadFailsIff(form: Form, c: Conn, erased: nat)
    requires ConnInv(c) && Enabled(c, StopRead)
    ensures After(form, c, StopRead, erased).failed <==> Fails(form, c, StopRead)
    ensures ConnInv(After(form, c, StopRead, erased))
  {
  }

  lemma WritingFailsIff(form: Form, c: Conn, e: Event, erased: nat)
    requires ConnInv(c) && Enabled(c, e) && (e.WantWrite? || e.Drained?)
    ensures After(form, c, e, erased).failed <==> Fails(form, c, e)
    ensures ConnInv(After(form, c, e, erased))
  {
  }

  /** For any event on a connection in one of its stages: it fails exactly in those cases, and otherwise the
      connection stays in one of its stages. */
  lemma EventFailsIff(form: Form, c: Conn, e: Event, erased: nat)
    requires ConnInv(c) && Enabled(c, e) && erased == if c.listed then 1 else 0
    ensures After(form, c, e, erased).failed <==> Fails(form, c, e)
    ensures ConnInv(After(form, c, e, erased))
  {
    match e
    case Build =>
    case Hangup => HangupFailsIff(form, c);
    case DoubleHangup => HangupFailsIff(form, c);
    case StartRead => StartReadFailsIff(form, c, erased);
    case StopRead => StopReadFailsIff(form, c, erased);
    case WantWrite => WritingFailsIff(form, c, e, erased);
    case Drained => WritingFailsIff(form, c, e, erased);
    case HalfClose =>
    case Remove => RemoveFailsIff(form, c);
    case Destroy => DestroyFailsIff(form, c, erased);
    case Release =>
  }

  // ---------------------------------------------------------------- names

  function Decimal(n: nat): string
    decreases n
  {
    if n < 10 then [(n + 48) as char] else Decimal(n / 10) + [(n % 10 + 48) as char]
  }

  function ValueOf(s: string): int {
    if s == "" then 0 else ValueOf(s[..|s| - 1]) * 10 + s[|s| - 1] as int - 48
  }

  lemma {:induction false} DecimalValue(n: nat)
    ensures ValueOf(Decimal(n)) == n
    decreases n
  {
    var s := Decimal(n);
    if n < 10 {
      assert s[..0] == "";
      assert ValueOf("") == 0;
    } else {
      DecimalValue(n / 10);
      assert s[..|s| - 1] == Decimal(n / 10);
    }
  }

  /** Line 56: the key of a connection in the server's map. */
  function Name(prefix: string, id: nat): string {
    prefix + "#" + Decimal(id)
  }

  lemma NamesDiffer(prefix: string, a: nat, b: nat)
    requires a != b
    ensures Name(prefix, a) != Name(prefix, b)
  {
    DecimalValue(a);
    DecimalValue(b);
    var p := prefix + "#";
    assert Name(prefix, a)[|p|..] == Decimal(a) && Name(prefix, b)[|p|..] == Decimal(b);
  }

  // ---------------------------------------------------------------- the server

  datatype Server = Server(prefix: string, nextId: nat, table: map<string, nat>, conns: map<nat, Conn>)

  datatype Step = Accept(sameLoop: bool) | On(id: nat, event: Event)

  function Start(prefix: string): Server {
    Server(prefix, 1, map[], map[])
  }

  function Entries(s: Server, id: nat): nat {
    if Name(s.prefix, id) in s.table then 1 else 0
  }

  predicate Erases(c: Conn, c': Conn) {
    c.listed && !c'.listed
  }

  function Apply(form: Form, s: Server, step: Step): Server {
    match step
    case Accept(sameLoop) =>
      var c := NewConn(sameLoop);
      s.(nextId := s.nextId + 1, table := s.table[Name(s.prefix, s.nextId) := s.nextId],
         conns := s.conns[s.nextId := if sameLoop then After(form, c, Build, 0) else c])
    case On(id, e) =>
      if id !in s.conns then s
      else
        Replaced(s, id, After(form, s.conns[id], e, Entries(s, id)))
  }

  function From(form: Form, s: Server, steps: seq<Step>): Server {
    if steps == [] then s else Apply(form, From(form, s, steps[..|steps| - 1]), steps[|steps| - 1])
  }

  ghost predicate Inv(s: Server) {
    && (forall id | id in s.conns :: id < s.nextId && ConnInv(s.conns[id]))
    && (forall id | id in s.conns :: s.conns[id].listed <==> Name(s.prefix, id) in s.table)
    && (forall name | name in s.table :: exists id | id in s.conns :: name == Name(s.prefix, id) && s.table[name] == id)
  }

  lemma OtherNames(s: Server, id: nat)
    ensures forall k: nat | k != id :: Name(s.prefix, k) != Name(s.prefix, id)
  {
    forall k: nat | k != id
      ensures Name(s.prefix, k) != Name(s.prefix, id)
    {
      NamesDiffer(s.prefix, k, id);
    }
  }

  lemma AcceptPreserved(form: Form, s: Server, sameLoop: bool)
    requires Inv(s)
    ensures Inv(Apply(form, s, Accept(sameLoop)))
  {
    var t := Apply(form, s, Accept(sameLoop));
    OtherNames(s, s.nextId);
    var c := t.conns[s.nextId];
    assert ConnInv(c) && c.listed;
    forall name | name in t.table
      ensures exists id | id in t.conns :: name == Name(t.prefix, id) && t.table[name] == id
    {
      if name == Name(s.prefix, s.nextId) {
        assert s.nextId in t.conns;
      } else {
        var id :| id in s.conns && name == Name(s.prefix, id) && s.table[name] == id;
        assert id in t.conns;
      }
    }
  }

  function Replaced(s: Server, id: nat, c': Conn): Server
    requires id in s.conns
  {
    s.(conns := s.conns[id := c'],
       table := if Erases(s.conns[id], c') then s.table - {Name(s.prefix, id)} else s.table)
  }

  lemma ReplacedPreserved(s: Server, id: nat, c': Conn)
    requires Inv(s) && id in s.conns && ConnInv(c') && Advances(s.conns[id], c')
    ensures Inv(Replaced(s, id, c'))
  {
    var t := Replaced(s, id, c');
    OtherNames(s, id);
    forall name | name in t.table
      ensures exists k | k in t.conns :: name == Name(t.prefix, k) && t.table[name] == k
    {
      var k :| k in s.conns && name == Name(s.prefix, k) && s.table[name] == k;
      assert k in t.conns;
    }
  }

  lemma EventPreserved(form: Form, s: Server, id: nat, e: Event)
    requires Inv(s) && id in s.conns
    ensures Inv(Apply(form, s, On(id, e)))
  {
    if Enabled(s.conns[id], e) {
      EventFailsIff(form, s.conns[id], e, Entries(s, id));
    }
    ReplacedPreserved(s, id, After(form, s.conns[id], e, Entries(s, id)));
  }

  lemma Preserved(form: Form, s: Server, step: Step)
    requires Inv(s)
    ensures Inv(Apply(form, s, step))
  {
    match step
    case Accept(sameLoop) => AcceptPreserved(form, s, sameLoop);
    case On(id, e) =>
      if id in s.conns {
        EventPreserved(form, s, id, e);
      }
  }

  lemma {:induction false} InvariantFrom(form: Form, s: Server, steps: seq<Step>)
    requires Inv(s)
    ensures Inv(From(form, s, steps))
  {
    if steps != [] {
      InvariantFrom(form, s, steps[..|steps| - 1]);
      Preserved(form, From(form, s, steps[..|steps| - 1]), steps[|steps| - 1]);
    }
  }

  lemma Invariant(form: Form, prefix: string, steps: seq<Step>)
    ensures Inv(From(form, Start(prefix), steps))
  {
    InvariantFrom(form, Start(prefix), steps);
  }

  lemma {:induction false} PrefixKept(form: Form, prefix: string, steps: seq<Step>)
    ensures From(form, Start(prefix), steps).prefix == prefix
  {
    if steps != [] {
      PrefixKept(form, prefix, steps[..|steps| - 1]);
    }
  }

  // ---------------------------------------------------------------- theorems over every run

  /** In every run, for every connection on which no assertion has failed: its callback has fired up once and then
      down once as its status says, the map holds it until the one erase that removes it, destroy_connect has
      happened at most once, and the poller does not know it once it is released. */
  lemma ConnectionsLiveOnce(form: Form, prefix: string, steps: seq<Step>, id: nat)
    requires var s := From(form, Start(prefix), steps); id in s.conns && !s.conns[id].failed
    ensures var s := From(form, Start(prefix), steps); var c := s.conns[id];
      && c.counts.ups == (if c.status.Connecting? then 0 else 1)
      && c.counts.downs == (if c.status.Disconnected? then 1 else 0)
      && c.counts.destroyed <= 1 && (c.counts.destroyed == 1 ==> c.status.Disconnected?)
      && (c.released ==> c.counts.destroyed == 1 && !c.ch.mapped)
      && (Name(prefix, id) in s.table <==> c.tasks.destroys + c.counts.destroyed == 0)
  {
    Invariant(form, prefix, steps);
    PrefixKept(form, prefix, steps);
  }

  /** destroy_connect always meets a closed connection the poller knows, with no writing interest; it fails exactly
      when reading was started again. */
  lemma DestroyFailsOnReadersIff(form: Form, prefix: string, steps: seq<Step>, id: nat)
    requires var s := From(form, Start(prefix), steps);
      id in s.conns && !s.conns[id].failed && s.conns[id].tasks.destroys > 0
    ensures var c := From(form, Start(prefix), steps).conns[id];
      && c.status.Disconnected? && !c.ch.writing && (c.ch.tag.ADD? || c.ch.tag.DEL?) && c.counts.destroyed == 0
      && (Destroyed(form, c).failed <==> c.ch.reading)
  {
    Invariant(form, prefix, steps);
  }

  /** The last reference to a connection goes only after it was closed and destroyed, once, so the assertion of
      ~TcpConnection holds; that of ~Channel fails exactly when reading was started or stopped again since, which
      registers the channel. */
  lemma ReleaseFailsOnRegisteredIff(form: Form, prefix: string, steps: seq<Step>, id: nat)
    requires var s := From(form, Start(prefix), steps); id in s.conns && Enabled(s.conns[id], Release)
    ensures var c := From(form, Start(prefix), steps).conns[id];
      && c.status.Disconnected? && c.counts == Counts(1, 1, 1) && !c.ch.writing
      && (Released(c).failed <==> c.ch.mapped)
  {
    Invariant(form, prefix, steps);
  }

  /** Step `i` of the run is an event that can happen to this connection then, and on which it fails. */
  ghost predicate FailingStep(form: Form, prefix: string, steps: seq<Step>, i: nat, id: nat)
    requires i < |steps|
  {
    var before := From(form, Start(prefix), steps[..i]);
    && steps[i].On? && steps[i].id == id && id in before.conns
    && Enabled(before.conns[id], steps[i].event) && Fails(form, before.conns[id], steps[i].event)
  }

  /** In every run, in either form: an assertion has failed on a connection exactly when some step of the run was a
      failing one. */
  lemma {:induction false} ConnectionFailsIff(form: Form, prefix: string, steps: seq<Step>, id: nat)
    requires id in From(form, Start(prefix), steps).conns
    ensures From(form, Start(prefix), steps).conns[id].failed <==>
      exists i | 0 <= i < |steps| :: FailingStep(form, prefix, steps, i, id)
  {
    if steps != [] {
      var n := |steps| - 1;
      var before := From(form, Start(prefix), steps[..n]);
      Invariant(form, prefix, steps[..n]);
      forall i | 0 <= i < n
        ensures FailingStep(form, prefix, steps[..n], i, id) == FailingStep(form, prefix, steps, i, id)
      {
        assert steps[..n][..i] == steps[..i];
      }
      if id in before.conns {
        ConnectionFailsIff(form, prefix, steps[..n], id);
        LastStepFailsIff(form, prefix, steps, id);
        EarlierOrLast(form, prefix, steps, steps[..n], id);
      } else {
        NotYetThere(form, prefix, steps, id);
      }
    }
  }

  /** The last step of a run makes a connection fail, or leaves it as failed as it was. */
  lemma LastStepFailsIff(form: Form, prefix: string, steps: seq<Step>, id: nat)
    requires steps != [] && id in From(form, Start(prefix), steps[..|steps| - 1]).conns
    ensures var n := |steps| - 1;
      var before := From(form, Start(prefix), steps[..n]); var s := From(form, Start(prefix), steps);
      id in s.conns && (s.conns[id].failed <==> before.conns[id].failed || FailingStep(form, prefix, steps, n, id))
  {
    var n := |steps| - 1;
    var before := From(form, Start(prefix), steps[..n]);
    Invariant(form, prefix, steps[..n]);
    if steps[n].On? && steps[n].id == id && Enabled(before.conns[id], steps[n].event) {
      EventFailsIff(form, before.conns[id], steps[n].event, Entries(before, id));
    }
  }

  lemma EarlierOrLast(form: Form, prefix: string, steps: seq<Step>, before: seq<Step>, id: nat)
    requires steps != [] && before == steps[..|steps| - 1]
    requires forall i | 0 <= i < |before| ::
      FailingStep(form, prefix, before, i, id) == FailingStep(form, prefix, steps, i, id)
    ensures (exists i | 0 <= i < |steps| :: FailingStep(form, prefix, steps, i, id)) <==>
      (exists i | 0 <= i < |before| :: FailingStep(form, prefix, before, i, id)) ||
      FailingStep(form, prefix, steps, |before|, id)
  {
    if i: nat :| i < |steps| && FailingStep(form, prefix, steps, i, id) {
      assert i < |before| ==> FailingStep(form, prefix, before, i, id);
    }
  }

  /** A connection accepted by the last step has not failed, and no step before could concern it. */
  lemma NotYetThere(form: Form, prefix: string, steps: seq<Step>, id: nat)
    requires steps != [] && id in From(form, Start(prefix), steps).conns
    requires id !in From(form, Start(prefix), steps[..|steps| - 1]).conns
    ensures !From(form, Start(prefix), steps).conns[id].failed
    ensures forall i | 0 <= i < |steps| :: !FailingStep(form, prefix, steps, i, id)
  {
    var n := |steps| - 1;
    forall i | 0 <= i < |steps|
      ensures !FailingStep(form, prefix, steps, i, id)
    {
      ConnsGrow(form, Start(prefix), steps[..n], i);
      assert steps[..n][..i] == steps[..i];
    }
  }

  lemma {:induction false} ConnsGrow(form: Form, s: Server, steps: seq<Step>, i: nat)
    requires i <= |steps|
    ensures From(form, s, steps[..i]).conns.Keys <= From(form, s, steps).conns.Keys
  {
    if i < |steps| {
      var n := |steps| - 1;
      ConnsGrow(form, s, steps[..n], i);
      assert steps[..n][..i] == steps[..i];
    } else {
      assert steps[..i] == steps;
    }
  }

  /** From any reachable state on, whatever follows, a connection's status only advances. */
  lemma {:induction false} StatusNeverMovesBack(form: Form, prefix: string, steps: seq<Step>, more: seq<Step>, id: nat)
    requires id in From(form, Start(prefix), steps).conns
    ensures var s := From(form, Start(prefix), steps); var t := From(form, s, more);
      id in t.conns && Rank(t.conns[id].status) >= Rank(s.conns[id].status)
  {
    if more != [] {
      var s := From(form, Start(prefix), steps);
      StatusNeverMovesBack(form, prefix, steps, more[..|more| - 1], id);
      Invariant(form, prefix, steps);
      InvariantFrom(form, s, more[..|more| - 1]);
      StepKeepsRank(form, From(form, s, more[..|more| - 1]), more[|more| - 1], id);
    }
  }

  lemma StepKeepsRank(form: Form, s: Server, step: Step, id: nat)
    requires Inv(s) && id in s.conns
    ensures id in Apply(form, s, step).conns && Rank(Apply(form, s, step).conns[id].status) >= Rank(s.conns[id].status)
  {
  }

  // ---------------------------------------------------------------- what the events ask for

  /** What the steps so far have made of a connection, by its events alone. */
  datatype Asked = Asked(
    sameLoop: bool, built: bool, reading: bool, writing: bool, halfClosed: bool,
    closed: bool, removed: bool, destroyed: bool, released: bool)

  function Unbuilt(sameLoop: bool): Asked {
    Asked(sameLoop, false, false, false, false, false, false, false, false)
  }

  /** A connection is built, closed, removed, destroyed and released in this order, on its accepting loop the middle
      three at once; in between, the last request for reading or writing counts. */
  function Asks(before: Asked, e: Event): Asked {
    match e
    case Build => if before.built then before else before.(built := true, reading := true)
    case StartRead => if before.built && !before.released then before.(reading := true) else before
    case StopRead => if before.built && !before.released then before.(reading := false) else before
    case WantWrite => if before.built && !before.closed then before.(writing := true) else before
    case Drained => before.(writing := false)
    case HalfClose => if before.built then before.(halfClosed := true) else before
    case Hangup =>
      if before.built && !before.closed then
        before.(reading := false, writing := false, closed := true,
                removed := before.sameLoop, destroyed := before.sameLoop)
      else before
    case Remove => if before.closed then before.(removed := true) else before
    case Destroy => if before.removed then before.(destroyed := true) else before
    case Release => if before.destroyed then before.(released := true) else before
    case DoubleHangup => before
  }

  /** Connections are numbered from 1 in the order in which they are accepted. */
  function Accepts(steps: seq<Step>): nat {
    if steps == [] then 0
    else Accepts(steps[..|steps| - 1]) + if steps[|steps| - 1].Accept? then 1 else 0
  }

  function AskedOf(steps: seq<Step>, id: nat): Asked {
    if steps == [] then Unbuilt(false)
    else
      var rest := steps[..|steps| - 1];
      match steps[|steps| - 1]
      case Accept(sameLoop) =>
        if id != Accepts(rest) + 1 then AskedOf(rest, id)
        else if sameLoop then Asks(Unbuilt(true), Build) else Unbuilt(false)
      case On(k, e) => if k == id && 1 <= id <= Accepts(rest) then Asks(AskedOf(rest, id), e) else AskedOf(rest, id)
  }

  /** While nothing has failed on it, the connection is as its events ask. */
  ghost predicate AsAsked(c: Conn, asked: Asked) {
    !c.failed ==>
      && c.sameLoop == asked.sameLoop
      && (c.ch.reading <==> asked.reading) && (c.ch.writing <==> asked.writing)
      && c.status == (if !asked.built then TcpConnections.Connecting
                      else if asked.closed then TcpConnections.Disconnected
                      else if asked.halfClosed then TcpConnections.Disconnecting
                      else TcpConnections.Connected)
      && (c.listed <==> !asked.removed) && c.counts.destroyed == (if asked.destroyed then 1 else 0)
      && (c.released <==> asked.released)
      && (asked.sameLoop ==> asked.closed == asked.removed == asked.destroyed)
      && (asked.halfClosed ==> asked.built) && (asked.closed ==> asked.built)
      && (asked.removed ==> asked.closed) && (asked.destroyed ==> asked.removed) && (asked.released ==> asked.destroyed)
  }

  lemma RequestAsks(form: Form, c: Conn, e: Event, erased: nat, asked: Asked)
    requires ConnInv(c) && AsAsked(c, asked) && Enabled(c, e)
    requires e.StartRead? || e.StopRead? || e.WantWrite? || e.Drained?
    ensures AsAsked(After(form, c, e, erased), Asks(asked, e))
  {
  }

  lemma HangupAsks(form: Form, c: Conn, asked: Asked)
    requires ConnInv(c) && AsAsked(c, asked) && Enabled(c, Hangup)
    ensures AsAsked(After(form, c, Hangup, if c.listed then 1 else 0), Asks(asked, Hangup))
    ensures After(form, c, DoubleHangup, if c.listed then 1 else 0).failed
  {
  }

  lemma ExitAsks(form: Form, c: Conn, e: Event, asked: Asked)
    requires ConnInv(c) && AsAsked(c, asked) && Enabled(c, e) && (e.Remove? || e.Destroy? || e.Release?)
    ensures AsAsked(After(form, c, e, if c.listed then 1 else 0), Asks(asked, e))
  {
  }

  lemma DisabledAsks(c: Conn, e: Event, asked: Asked)
    requires ConnInv(c) && AsAsked(c, asked) && !Enabled(c, e)
    ensures AsAsked(c, Asks(asked, e))
  {
  }

  lemma EventAsks(form: Form, c: Conn, e: Event, erased: nat, asked: Asked)
    requires ConnInv(c) && AsAsked(c, asked) && erased == if c.listed then 1 else 0
    ensures AsAsked(After(form, c, e, erased), Asks(asked, e))
  {
    if !Enabled(c, e) {
      DisabledAsks(c, e, asked);
    } else {
      match e
      case Build =>
      case HalfClose =>
      case Hangup => HangupAsks(form, c, asked);
      case DoubleHangup => HangupAsks(form, c, asked);
      case Remove => ExitAsks(form, c, e, asked);
      case Destroy => ExitAsks(form, c, e, asked);
      case Release => ExitAsks(form, c, e, asked);
      case _ => RequestAsks(form, c, e, erased, asked);
    }
  }

  lemma {:induction false} IdsAre(form: Form, prefix: string, steps: seq<Step>)
    ensures var s := From(form, Start(prefix), steps);
      s.nextId == Accepts(steps) + 1 && forall id :: id in s.conns <==> 1 <= id <= Accepts(steps)
  {
    if steps != [] {
      IdsAre(form, prefix, steps[..|steps| - 1]);
    }
  }

  lemma {:induction false} NotAskedYet(steps: seq<Step>, id: nat)
    requires id > Accepts(steps)
    ensures AskedOf(steps, id) == Unbuilt(false)
  {
    if steps != [] {
      NotAskedYet(steps[..|steps| - 1], id);
    }
  }

  /** In every run: connections get the next number as they are accepted, and as long as nothing has failed on one, its
      status, its interests and its way out are exactly what its own events asked for. */
  lemma {:induction false} ConnectionIsAsAsked(form: Form, prefix: string, steps: seq<Step>, id: nat)
    ensures id in From(form, Start(prefix), steps).conns <==> 1 <= id <= Accepts(steps)
    ensures 1 <= id <= Accepts(steps) ==> AsAsked(From(form, Start(prefix), steps).conns[id], AskedOf(steps, id))
  {
    IdsAre(form, prefix, steps);
    if steps != [] && 1 <= id <= Accepts(steps) {
      var (rest, last) := (steps[..|steps| - 1], steps[|steps| - 1]);
      var before := From(form, Start(prefix), rest);
      ConnectionIsAsAsked(form, prefix, rest, id);
      IdsAre(form, prefix, rest);
      Invariant(form, prefix, rest);
      if id > Accepts(rest) {
        NotAskedYet(rest, id);
      } else if last.On? && last.id == id {
        EventAsks(form, before.conns[id], last.event, Entries(before, id), AskedOf(rest, id));
      }
    }
  }

  // ---------------------------------------------------------------- failing runs

  function Events(form: Form, c: Conn, events: seq<Event>): Conn
    decreases |events|
  {
    if events == [] then c else Events(form, After(form, c, events[0], 1), events[1..])
  }

  /** Both forms: starting to read between the close and the destruction makes remove() meet a channel with
      events. */
  lemma StartReadAfterCloseFails(form: Form)
    ensures Events(form, NewConn(false), [Build, Hangup, Remove, StartRead, Destroy]).failed
  {
  }

  /** Both forms: handle_close_ leaves `reading_` set, so stopping to read after it updates the channel; as intended
      that registers it again, and the next hang-up closes the connection a second time. */
  lemma StopReadAfterCloseFails(form: Form)
    ensures Events(form, NewConn(false), [Build, Hangup, StopRead, Hangup]).failed
  {
  }

  /** Both forms: after the destruction, here on the accepting loop itself, `reading_` is still set, stopping to read
      registers the channel again, and its destructor then fails. */
  lemma StopReadAfterDestroyFails(form: Form)
    ensures Events(form, NewConn(true), [Build, Hangup, StopRead, Release]).failed
  {
  }

  /** As written, a hang-up that was reported before another handler stopped reading fails. */
  lemma HangupAfterStopReadFails()
    ensures Events(AsWritten, NewConn(false), [Build, StopRead, Hangup]).failed
    ensures !Events(Intended, NewConn(false), [Build, StopRead, Hangup]).failed
  {
  }

  /** As written, reading that was stopped cannot be started again. */
  lemma StoppedReadingCannotRestart()
    ensures Events(AsWritten, NewConn(false), [Build, StopRead, StartRead]).failed
    ensures !Events(Intended, NewConn(false), [Build, StopRead, StartRead]).failed
  {
  }

  // ---------------------------------------------------------------- one poll result

  datatype Revents = Revents(hup: bool, err: bool, nval: bool, readable: bool, urgent: bool, rdhup: bool, writable: bool)

  datatype Handler = CloseHandler | ErrorHandler | ReadHandler | WriteHandler

  /** Channel::handle_event_guard_ (src/event/channel.cc:37-75). */
  function Handlers(r: Revents): seq<Handler> {
    (if r.hup && !r.readable then [CloseHandler] else [])
    + (if r.err || r.nval then [ErrorHandler] else [])
    + (if r.readable || r.urgent || r.rdhup then [ReadHandler] else [])
    + (if r.writable then [WriteHandler] else [])
  }

  /** How often one result makes handle_close_ run; `ended`: the read returns zero bytes. */
  function Closings(r: Revents, ended: bool): nat {
    (if CloseHandler in Handlers(r) then 1 else 0) + (if ReadHandler in Handlers(r) && ended then 1 else 0)
  }

  function Polled(form: Form, c: Conn, r: Revents, ended: bool, erased: nat): Conn {
    match Closings(r, ended)
    case 0 => c
    case 1 => After(form, c, Hangup, erased)
    case _ => After(form, c, DoubleHangup, erased)
  }

  /** Of a connection on which nothing has failed, one poll result makes an assertion fail exactly when the connection
      was closed before and is closed again; or the result reports a hang-up without input but with urgent data or a
      half-closed peer, and the read that follows finds the end; or, as written, it closes a channel marked DEL. */
  lemma PollResultFailsIff(form: Form, c: Conn, r: Revents, ended: bool)
    requires ConnInv(c) && !c.failed && Reported(c)
    ensures Polled(form, c, r, ended, if c.listed then 1 else 0).failed <==>
      || (c.status.Disconnected? && Closings(r, ended) > 0)
      || (r.hup && !r.readable && (r.urgent || r.rdhup) && ended)
      || (form.AsWritten? && c.ch.tag.DEL? && Closings(r, ended) > 0)
  {
    EventFailsIff(form, c, Hangup, if c.listed then 1 else 0);
    EventFailsIff(form, c, DoubleHangup, if c.listed then 1 else 0);
  }
}
