/** The outgoing byte stream of src/server/tcpconnection.cc: direct sends, the output buffer, the writing interest
    and the half-close. Results of send(2) and write(2) are arguments.

    After the last buffered byte line 215 calls shutdown_in_loop_, which acts only while CONNECTED, so the text
    never half-closes a connection whose buffer was not empty at shutdown; form `Intended` does. */
module TcpConnections {
  import opened SourceForm
  import opened Buffers

  datatype Status = Connecting | Connected | Disconnecting | Disconnected

  /** What a write on the socket did: bytes taken, EWOULDBLOCK, EPIPE or ECONNRESET, any other error. */
  datatype IoResult = Wrote(n: nat) | WouldBlock | PeerGone | OtherError

  /** Tasks handed to the loop by queue_in_loop. */
  datatype Posted = WriteComplete | HighWater(size: nat)

  /** Callbacks made on the spot: connection_cb_, with the status it finds, and close_cb_. */
  datatype Call = ConnectionCallback(status: Status) | CloseCallback

  /** `sent` is what the kernel accepted, `kept` the concatenation of all messages that were not dropped. */
  datatype Stream = Stream(
    status: Status, writing: bool, out: seq<Byte>, shutWr: bool, sent: seq<Byte>, kept: seq<Byte>)

  datatype Step =
    | Build
    | Send(data: seq<Byte>, result: IoResult)
    | WriteReady(result: IoResult)
    | Shutdown
    | Close

  const INITIAL := Stream(Connecting, false, [], false, [], [])

  /** send_in_loop_ goes to the socket only when nothing is waiting before the message. */
  predicate Direct(s: Stream) {
    !s.writing && s.out == []
  }

  /** What the kernel may answer: never more bytes than offered, and nothing after SHUT_WR. */
  predicate Answers(s: Stream, offered: nat, result: IoResult) {
    (result.Wrote? ==> result.n <= offered) && (s.shutWr && offered > 0 ==> result.PeerGone?)
  }

  predicate Enabled(s: Stream, step: Step) {
    match step
    case Build => s.status.Connecting?
    case Send(data, result) => !s.status.Connecting? && (Direct(s) ==> Answers(s, |data|, result))
    case WriteReady(result) => s.writing ==> Answers(s, |s.out|, result)
    case Shutdown => true
    case Close => s.status.Connected? || s.status.Disconnecting?
  }

  function Apply(form: Form, s: Stream, step: Step): Stream {
    if !Enabled(s, step) then s else
    match step
    case Build => s.(status := Connected)
    case Send(data, result) =>
      if s.status.Disconnected? then s
      else if Direct(s) && result.PeerGone? then s
      else
        var n := if Direct(s) && result.Wrote? then result.n else 0;
        s.(sent := s.sent + data[..n], out := s.out + data[n..], kept := s.kept + data, writing := s.writing || n < |data|)
    case WriteReady(result) =>
      if s.writing && result.Wrote? && result.n > 0 then
        var drained := result.n == |s.out|;
        s.(sent := s.sent + s.out[..result.n], out := s.out[result.n..], writing := !drained,
           shutWr := s.shutWr || (form.Intended? && drained && s.status.Disconnecting?))
      else s
    case Shutdown =>
      if s.status.Connected? then s.(status := Disconnecting, shutWr := s.shutWr || !s.writing) else s
    case Close => s.(status := Disconnected, writing := false)
  }

  function From(form: Form, s: Stream, steps: seq<Step>): Stream {
    if steps == [] then s
    else Apply(form, From(form, s, steps[..|steps| - 1]), steps[|steps| - 1])
  }

  // ---------------------------------------------------------------- properties of every run

  ghost predicate Live(s: Stream) {
    s.status.Connected? || s.status.Disconnecting?
  }

  ghost predicate Inv(form: Form, s: Stream) {
    && s.sent + s.out == s.kept
    && (s.writing ==> s.out != [] && Live(s))
    && (Live(s) && s.out != [] ==> s.writing)
    && (s.status.Connecting? ==> s.out == [])
    && (s.shutWr ==> s.out == [] && (s.status.Disconnecting? || s.status.Disconnected?))
    && (form.Intended? && s.status.Disconnecting? && s.out == [] ==> s.shutWr)
  }

  lemma SendPreserved(form: Form, s: Stream, data: seq<Byte>, result: IoResult)
    requires Inv(form, s) && Enabled(s, Send(data, result))
    ensures Inv(form, Apply(form, s, Send(data, result)))
  {
  }

  /** One send in terms of what the socket took and whether the peer was gone. */
  lemma SendResult(form: Form, s: Stream, data: seq<Byte>, result: IoResult, n: nat, fault: bool)
    requires Enabled(s, Send(data, result)) && !s.status.Disconnected?
    requires n == (if Direct(s) && result.Wrote? then result.n else 0) <= |data|
    requires fault <==> Direct(s) && result.PeerGone?
    ensures Apply(form, s, Send(data, result)) ==
      if fault then s
      else s.(sent := s.sent + data[..n], out := s.out + data[n..], kept := s.kept + data, writing := s.writing || n < |data|)
  {
  }

  lemma WriteReadyPreserved(form: Form, s: Stream, result: IoResult)
    requires Inv(form, s) && Enabled(s, WriteReady(result))
    ensures Inv(form, Apply(form, s, WriteReady(result)))
  {
  }

  lemma Preserved(form: Form, s: Stream, step: Step)
    requires Inv(form, s)
    ensures Inv(form, Apply(form, s, step))
  {
    if Enabled(s, step) {
      match step
      case Send(data, result) => SendPreserved(form, s, data, result);
      case WriteReady(result) => WriteReadyPreserved(form, s, result);
      case Build =>
      case Shutdown =>
      case Close =>
    }
  }

  lemma {:induction false} Invariant(form: Form, steps: seq<Step>)
    ensures Inv(form, From(form, INITIAL, steps))
  {
    if steps != [] {
      Invariant(form, steps[..|steps| - 1]);
      Preserved(form, From(form, INITIAL, steps[..|steps| - 1]), steps[|steps| - 1]);
    }
  }

  /** Whether the kernel may answer a live connection's offer of `offered` bytes so. */
  ghost predicate Possible(s: Stream, offered: nat, result: IoResult) {
    match result
    case Wrote(n) => n <= offered && (s.shutWr ==> offered == 0)
    case PeerGone => true
    case WouldBlock => s.shutWr ==> offered == 0
    case OtherError => s.shutWr ==> offered == 0
  }

  /** Whether a message is kept: the connection is live, and the message waits behind others or is offered to a peer
      that is not found gone. */
  ghost predicate Keeps(s: Stream, data: seq<Byte>, result: IoResult) {
    Live(s) && (s.out == [] ==> Possible(s, |data|, result) && !result.PeerGone?)
  }

  /** How many bytes the kernel says it takes: of a message with nothing before it, or of what waits. */
  ghost function Takes(s: Stream, step: Step): nat {
    match step
    case Send(data, Wrote(n)) => if Live(s) && s.out == [] && Possible(s, |data|, Wrote(n)) then n else 0
    case WriteReady(Wrote(n)) => if Live(s) && s.out != [] && n <= |s.out| then n else 0
    case _ => 0
  }

  /** The messages of a run that were not dropped, in the order of the calls. */
  ghost function KeptOf(form: Form, steps: seq<Step>): seq<Byte> {
    if steps == [] then []
    else
      var (rest, last) := (steps[..|steps| - 1], steps[|steps| - 1]);
      KeptOf(form, rest) +
      if last.Send? && Keeps(From(form, INITIAL, rest), last.data, last.result) then last.data else []
  }

  ghost function TakenOf(form: Form, steps: seq<Step>): nat {
    if steps == [] then 0
    else
      var (rest, last) := (steps[..|steps| - 1], steps[|steps| - 1]);
      TakenOf(form, rest) + Takes(From(form, INITIAL, rest), last)
  }

  lemma SendAccounts(form: Form, s: Stream, data: seq<Byte>, result: IoResult)
    requires Inv(form, s)
    ensures var t := Apply(form, s, Send(data, result));
      t.kept == s.kept + (if Keeps(s, data, result) then data else []) && |t.sent| == |s.sent| + Takes(s, Send(data, result))
  {
    if Enabled(s, Send(data, result)) && Live(s) {
      var n := if Direct(s) && result.Wrote? then result.n else 0;
      SendResult(form, s, data, result, n, Direct(s) && result.PeerGone?);
    }
  }

  lemma OthersAccount(form: Form, s: Stream, step: Step)
    requires Inv(form, s) && !step.Send?
    ensures var t := Apply(form, s, step); t.kept == s.kept && |t.sent| == |s.sent| + Takes(s, step)
  {
  }

  lemma {:induction false} HistoriesAre(form: Form, steps: seq<Step>)
    ensures From(form, INITIAL, steps).kept == KeptOf(form, steps)
    ensures |From(form, INITIAL, steps).sent| == TakenOf(form, steps)
  {
    if steps != [] {
      var (rest, last) := (steps[..|steps| - 1], steps[|steps| - 1]);
      HistoriesAre(form, rest);
      Invariant(form, rest);
      if last.Send? {
        SendAccounts(form, From(form, INITIAL, rest), last.data, last.result);
      } else {
        OthersAccount(form, From(form, INITIAL, rest), last);
      }
    }
  }

  /** For every pattern of partial writes and errors, the messages that were not dropped are whole and in order: the
      kernel has exactly as many bytes of them as it said it took, and the output buffer holds exactly the others.
      Writing interest is on exactly while something waits, and after SHUT_WR nothing waits. */
  lemma StreamIsConserved(form: Form, steps: seq<Step>)
    ensures var s := From(form, INITIAL, steps);
      var (kept, taken) := (KeptOf(form, steps), TakenOf(form, steps));
      && taken <= |kept| && s.sent == kept[..taken] && s.out == kept[taken..]
      && (Live(s) ==> (s.writing <==> taken < |kept|))
      && (s.shutWr ==> taken == |kept|)
  {
    Invariant(form, steps);
    HistoriesAre(form, steps);
  }

  /** Step `i` is one of the kind, after the connection was built. */
  ghost predicate Follows(steps: seq<Step>, i: nat, step: Step)
    requires i < |steps|
  {
    steps[i] == step && Build in steps[..i]
  }

  ghost predicate Followed(steps: seq<Step>, step: Step) {
    exists i | 0 <= i < |steps| :: Follows(steps, i, step)
  }

  lemma FollowedSnoc(steps: seq<Step>, step: Step)
    requires steps != []
    ensures Followed(steps, step) <==>
      Followed(steps[..|steps| - 1], step) || (steps[|steps| - 1] == step && Build in steps[..|steps| - 1])
  {
    var n := |steps| - 1;
    forall i | 0 <= i < n
      ensures Follows(steps, i, step) == Follows(steps[..n], i, step)
    {
      assert steps[..n][..i] == steps[..i];
    }
    if Followed(steps[..n], step) {
      var i :| 0 <= i < n && Follows(steps[..n], i, step);
      assert Follows(steps, i, step);
    }
    if steps[n] == step && Build in steps[..n] {
      assert Follows(steps, n, step);
    }
  }

  /** The status of any run, from its steps alone. */
  lemma {:induction false} StatusIs(form: Form, steps: seq<Step>)
    ensures From(form, INITIAL, steps).status ==
      if Build !in steps then Connecting
      else if Followed(steps, Close) then Disconnected
      else if Followed(steps, Shutdown) then Disconnecting
      else Connected
  {
    if steps != [] {
      var n := |steps| - 1;
      StatusIs(form, steps[..n]);
      FollowedSnoc(steps, Close);
      FollowedSnoc(steps, Shutdown);
      assert steps == steps[..n] + [steps[n]];
    }
  }

  /** The half-close is final: whatever follows, not one more byte is sent or kept. */
  lemma {:induction false} HalfCloseIsFinal(form: Form, s: Stream, steps: seq<Step>)
    requires Inv(form, s) && s.shutWr
    ensures var t := From(form, s, steps);
      Inv(form, t) && t.shutWr && t.sent == s.sent && t.kept == s.kept && t.out == []
  {
    if steps != [] {
      var rest := steps[..|steps| - 1];
      HalfCloseIsFinal(form, s, rest);
      Preserved(form, From(form, s, rest), steps[|steps| - 1]);
      var last := steps[|steps| - 1];
      if last.Send? {
        assert last.data[..|last.data|] == last.data;
      }
    }
  }

  /** As written, a shutdown of a connected stream half-closes it, now or ever, exactly when nothing was waiting
      to be written at that moment. */
  lemma {:induction false} ShutdownTakesEffectIff(s: Stream, steps: seq<Step>)
    requires Inv(AsWritten, s) && s.status.Connected?
    ensures From(AsWritten, Apply(AsWritten, s, Shutdown), steps).shutWr <==> s.out == []
    ensures !From(AsWritten, Apply(AsWritten, s, Shutdown), steps).status.Connected?
    ensures !From(AsWritten, Apply(AsWritten, s, Shutdown), steps).status.Connecting?
  {
    if steps != [] {
      ShutdownTakesEffectIff(s, steps[..|steps| - 1]);
    }
  }

  /** As intended, once shut down and drained a stream is half-closed. */
  lemma DrainedStreamIsHalfClosed(steps: seq<Step>)
    ensures var s := From(Intended, INITIAL, steps); s.status.Disconnecting? ==> (s.shutWr <==> s.out == [])
  {
    Invariant(Intended, steps);
  }

  // ---------------------------------------------------------------- the connection object

  class TcpConnection {
    const form: Form
    const highWaterMark: nat
    const hasWriteComplete: bool
    const output: Buffer
    var status: Status
    // The channel's interests, and whether it is tied to this object.
    var reading: bool
    var writing: bool
    var tied: bool
    var shutWr: bool
    var posted: seq<Posted>
    ghost var calls: seq<Call>
    ghost var sent: seq<Byte>
    ghost var kept: seq<Byte>

    ghost function Abstract(): Stream
      reads this, output, output.data
      requires output.Valid()
    {
      Stream(status, writing, output.Contents(), shutWr, sent, kept)
    }

    ghost predicate Valid()
      reads this, output, output.data
    {
      output.Valid() && Inv(form, Abstract())
    }

    constructor (form: Form, highWaterMark: nat, hasWriteComplete: bool)
      ensures Valid() && Abstract() == INITIAL && posted == [] && calls == [] && !tied
      ensures fresh(output) && fresh(output.data)
    {
      this.form, this.highWaterMark, this.hasWriteComplete := form, highWaterMark, hasWriteComplete;
      output := new Buffer();
      status, reading, writing, tied, shutWr, posted := Connecting, false, false, false, false, [];
      calls, sent, kept := [], [], [];
    }

    method BuildConnect()
      requires Valid() && status.Connecting?
      modifies this`status, this`tied, this`reading, this`calls
      ensures Valid() && Abstract() == Apply(form, old(Abstract()), Build)
      ensures tied && reading && calls == old(calls) + [ConnectionCallback(Connected)]
    {
      status := Connected;
      tied := true;
      reading := true;
      calls := calls + [ConnectionCallback(status)];
    }

    /** Lines 257-291: the attempt to write past an empty buffer. */
    method TrySend(data: seq<Byte>, result: IoResult) returns (nwrote: nat, faultError: bool)
      requires Valid() && !status.Disconnected? && Enabled(Abstract(), Send(data, result))
      modifies this`posted, this`sent
      ensures nwrote == (if Direct(old(Abstract())) && result.Wrote? then result.n else 0) <= |data|
      ensures faultError <==> Direct(old(Abstract())) && result.PeerGone?
      ensures sent == (if faultError then old(sent) else old(sent) + data[..nwrote])
      ensures posted == old(posted) +
        if Direct(old(Abstract())) && result == Wrote(|data|) && hasWriteComplete then [WriteComplete] else []
    {
      nwrote, faultError := 0, false;
      if !writing && output.Readable() == 0 {
        match result
        case Wrote(n) =>
          nwrote := n;
          sent := sent + data[..n];
          if n == |data| && hasWriteComplete {
            posted := posted + [WriteComplete];
          }
        case PeerGone => faultError := true;
        case WouldBlock =>
        case OtherError =>
      }
    }

    /** Lines 298-311: what the socket did not take waits in the buffer. */
    method Enqueue(data: seq<Byte>, nwrote: nat)
      requires output.Valid() && nwrote <= |data|
      modifies this`posted, this`kept, this`writing, output, output.data
      ensures output.Valid() && (output.data == old(output.data) || fresh(output.data))
      ensures output.Contents() == old(output.Contents()) + data[nwrote..]
      ensures kept == old(kept) + data
      ensures writing == (old(writing) || nwrote < |data|)
      ensures posted == old(posted) + Crossing(highWaterMark, old(|output.Contents()|), |data| - nwrote)
    {
      kept := kept + data;
      var remaining := |data| - nwrote;
      if remaining > 0 {
        var oldLen := output.Readable();
        if oldLen + remaining >= highWaterMark && oldLen < highWaterMark {
          posted := posted + [HighWater(oldLen + remaining)];
        }
        output.Append(data[nwrote..]);
        if !writing {
          writing := true;
        }
      }
    }

    method SendInLoop(data: seq<Byte>, result: IoResult)
      requires Valid() && Enabled(Abstract(), Send(data, result))
      modifies this`posted, this`sent, this`kept, this`writing, output, output.data
      ensures Valid() && (output.data == old(output.data) || fresh(output.data))
      ensures Abstract() == Apply(form, old(Abstract()), Send(data, result))
      ensures posted == old(posted) + SendPosts(hasWriteComplete, highWaterMark, old(Abstract()), data, result)
    {
      ghost var s := Abstract();
      ghost var before := posted;
      if !status.Disconnected? {
        var nwrote, faultError := TrySend(data, result);
        ghost var tried := posted;
        if !faultError {
          Enqueue(data, nwrote);
        }
        assert Abstract() == Apply(form, s, Send(data, result)) by {
          SendResult(form, s, data, result, nwrote, faultError);
        }
        assert posted == before + SendPosts(hasWriteComplete, highWaterMark, s, data, result) by {
          PostsOfSend(hasWriteComplete, highWaterMark, s, data, result, nwrote, faultError);
          assert posted == tried + posted[|tried|..];
        }
      }
      Preserved(form, s, Send(data, result));
    }

    method HandleWrite(result: IoResult)
      requires Valid() && Enabled(Abstract(), WriteReady(result))
      modifies this`posted, this`sent, this`writing, this`status, this`shutWr, output
      ensures Valid() && output.data == old(output.data)
      ensures Abstract() == Apply(form, old(Abstract()), WriteReady(result))
      ensures output.Contents() ==
        if old(writing) && result.Wrote? then old(output.Contents())[result.n..] else old(output.Contents())
      ensures posted == old(posted) +
        if hasWriteComplete && old(writing) && result == Wrote(|old(output.Contents())|) then [WriteComplete] else []
    {
      Preserved(form, Abstract(), WriteReady(result));
      if writing {
        match result
        case Wrote(n) =>
          if n > 0 {
            sent := sent + output.Contents()[..n];
            output.Retrieve(n);
            if output.Readable() == 0 {
              writing := false;
              if hasWriteComplete {
                posted := posted + [WriteComplete];
              }
              if status.Disconnecting? {
                if form.AsWritten? {
                  ShutdownInLoop();
                } else {
                  shutWr := true;
                }
              }
            }
          }
        case WouldBlock =>
        case PeerGone =>
        case OtherError =>
      }
    }

    method ShutdownInLoop()
      requires output.Valid()
      modifies this`status, this`shutWr
      ensures output.Valid() && Abstract() == Apply(form, old(Abstract()), Shutdown)
      ensures old(Valid()) ==> Valid()
    {
      if Inv(form, Abstract()) {
        Preserved(form, Abstract(), Shutdown);
      }
      if status.Connected? {
        status := Disconnecting;
        if !writing {
          shutWr := true;
        }
      }
    }

    method HandleClose()
      requires Valid() && (status.Connected? || status.Disconnecting?)
      modifies this`status, this`reading, this`writing, this`calls
      ensures Valid() && Abstract() == Apply(form, old(Abstract()), Close)
      ensures !reading && calls == old(calls) + [ConnectionCallback(Disconnected), CloseCallback]
    {
      Preserved(form, Abstract(), Close);
      status := Disconnected;
      reading := false;
      writing := false;
      calls := calls + [ConnectionCallback(status)];
      calls := calls + [CloseCallback];
    }
  }

  function Crossing(mark: nat, before: nat, added: nat): seq<Posted> {
    if added > 0 && before < mark <= before + added then [HighWater(before + added)] else []
  }

  /** The tasks one send posts: completion when the kernel takes all of it at once, and the high-water callback
      when, and only when, this message carries the backlog over the mark. */
  function SendPosts(hasWriteComplete: bool, mark: nat, s: Stream, data: seq<Byte>, result: IoResult): seq<Posted> {
    if s.status.Disconnected? || (Direct(s) && result.PeerGone?) then []
    else if Direct(s) && result.Wrote? && result.n >= |data| then (if hasWriteComplete then [WriteComplete] else [])
    else Crossing(mark, |s.out|, |data| - if Direct(s) && result.Wrote? then result.n else 0)
  }

  /** The tasks by what the send does to the backlog. */
  lemma SendPostsIff(form: Form, hasWriteComplete: bool, mark: nat, s: Stream, data: seq<Byte>, result: IoResult)
    requires Inv(form, s) && Enabled(s, Send(data, result))
    ensures var (posts, t) := (SendPosts(hasWriteComplete, mark, s, data, result), Apply(form, s, Send(data, result)));
      && |posts| <= 1
      && (forall size :: HighWater(size) in posts <==> |s.out| < mark <= |t.out| && size == |t.out|)
      && (WriteComplete in posts <==> hasWriteComplete && Live(s) && s.out == [] && result == Wrote(|data|))
  {
  }

  lemma PostsOfSend(hasWriteComplete: bool, mark: nat, s: Stream, data: seq<Byte>, result: IoResult, n: nat, fault: bool)
    requires Enabled(s, Send(data, result)) && !s.status.Disconnected?
    requires n == (if Direct(s) && result.Wrote? then result.n else 0) <= |data|
    requires fault <==> Direct(s) && result.PeerGone?
    ensures SendPosts(hasWriteComplete, mark, s, data, result) ==
      (if Direct(s) && result == Wrote(|data|) && hasWriteComplete then [WriteComplete] else [])
      + (if fault then [] else Crossing(mark, |s.out|, |data| - n))
  {
  }
}
