/** What single calls of stream_buffer.c do, from beginning to end, and what becomes of the data of sends
    that wait. */
module StreamCalls {
  import opened Basics
  import opened StreamIndex
  import opened StreamProtocol
  import opened StreamSafety
  import opened StreamFraming
  import opened StreamRuns

  // ---- sends that wait ----

  // A send that waits, for as long as it takes, and has something to write.
  predicate Patient(c: Config, a: Action) {
    !a.SendExpires? && (a.Send? ==> a.wait && Required(c, a.data) > 0)
  }

  ghost predicate AllPatient(c: Config, run: seq<Action>) { forall i :: 0 <= i < |run| ==> Patient(c, run[i]) }

  // The data of all sends that were begun, and that of the send that has not published all of it yet.
  function Begun(run: seq<Action>): seq<Bytes> {
    if run == [] then [] else Begins(run[0]) + Begun(run[1..])
  }

  function Begins(a: Action): seq<Bytes> { if a.Send? then [a.data] else [] }

  function InHand(w: Writer): seq<Bytes> {
    match w
    case Checking(data) => [data]
    case Asleep(data, _) => [data]
    case Awake(data, _) => [data]
    case Committed(data, _) => [data]
    case Copying(message, _, _) => [message]
    case _ => []
  }

  function SentOrInHand(s: State): seq<Bytes> { s.sent + InHand(s.writer) }

  // A waiting send has found room for all its data once it goes on.
  predicate Roomy(c: Config, w: Writer) {
    && (InHand(w) != [] ==> Required(c, InHand(w)[0]) > 0)
    && (w.Committed? ==> Required(c, w.data) <= w.space)
  }

  lemma {:induction false} WriterPatient(c: Config, s: State)
    requires Fit(c, s) && Roomy(c, s.writer)
    ensures var s' := WriterNext(c, s);
      Roomy(c, s'.writer) && SentOrInHand(s') == SentOrInHand(s)
  {
    if s.writer.Copying? {
    } else if s.writer.Committed? {
      assert s.writer.data[..|s.writer.data|] == s.writer.data;
    }
  }

  lemma {:induction false} StepPatient(c: Config, s: State, a: Action)
    requires Fit(c, s) && Legal(c, s, a) && Patient(c, a) && Roomy(c, s.writer)
    ensures var s' := Next(c, s, a);
      Roomy(c, s'.writer) && SentOrInHand(s') == SentOrInHand(s) + Begins(a)
  {
    match a
    case WriterStep => WriterPatient(c, s);
    case ReaderStep => SentUntouched(c, s);
    case _ =>
  }

  lemma {:induction false} SentUntouched(c: Config, s: State)
    requires Fit(c, s)
    ensures ReaderNext(c, s).sent == s.sent && ReaderNext(c, s).writer == s.writer
  {
  }

  lemma {:induction false} RunPatient(c: Config, s: State, run: seq<Action>)
    requires LegalRun(c, s, run) && AllPatient(c, run) && Roomy(c, s.writer)
    ensures var e := Exec(c, s, run);
      Roomy(c, e.writer) && SentOrInHand(e) == SentOrInHand(s) + Begun(run)
    decreases |run|
  {
    if run != [] {
      StepPatient(c, s, run[0]);
      RunPatient(c, Next(c, s, run[0]), run[1..]);
      Regroup(SentOrInHand(s), Begins(run[0]), Begun(run[1..]));
    }
  }

  lemma {:induction false} Regroup(a: seq<Bytes>, b: seq<Bytes>, rest: seq<Bytes>)
    ensures a + b + rest == a + (b + rest)
  {
  }

  /** Sends that wait for as long as it takes send all their data, each once, in the order of the calls: what
      was sent is what was asked for, but for the last call, which may still be at it. A sender that goes
      on has found room for all it has. */
  lemma {:induction false} WaitingSendsAll(c: Config, s: State, run: seq<Action>)
    requires Initial(c, s) && LegalRun(c, s, run) && AllPatient(c, run)
    ensures var e := Exec(c, s, run);
      && e.sent + InHand(e.writer) == Begun(run)
      && (e.writer.Committed? ==> Required(c, e.writer.data) <= e.writer.space)
  {
    RunPatient(c, s, run);
  }

  // ---- stream buffers ----

  function Joined(chunks: seq<Bytes>): Bytes {
    if chunks == [] then [] else Joined(chunks[..|chunks| - 1]) + chunks[|chunks| - 1]
  }

  lemma {:induction false} JoinedSnoc(chunks: seq<Bytes>, chunk: Bytes)
    ensures Joined(chunks + [chunk]) == Joined(chunks) + chunk
  {
    assert (chunks + [chunk])[..|chunks|] == chunks;
  }

  // In a stream buffer there are no lengths, and chunks are published whole.
  ghost predicate Streamed(s: State) {
    && (s.writer.Copying? ==> s.writer.parts == [s.writer.message])
    && (s.reader.Fetching? ==> !s.reader.header)
    && s.ring.accepted == Joined(s.sent) && s.ring.delivered == Joined(s.received)
  }

  lemma {:induction false} WriterStreamed(c: Config, s: State)
    requires !c.message && Fit(c, s) && Streamed(s)
    ensures Streamed(WriterNext(c, s))
  {
    if s.writer.Copying? {
      JoinedSnoc(s.sent, s.writer.message);
    }
  }

  lemma {:induction false} ReaderStreamed(c: Config, s: State)
    requires !c.message && Fit(c, s) && Streamed(s)
    ensures Streamed(ReaderNext(c, s))
  {
    if s.reader.Fetching? {
      JoinedSnoc(s.received, s.reader.got);
    }
  }

  lemma {:induction false} RunStreamed(c: Config, s: State, run: seq<Action>)
    requires !c.message && LegalRun(c, s, run) && Streamed(s)
    ensures Streamed(Exec(c, s, run))
    decreases |run|
  {
    if run != [] {
      match run[0] {
        case WriterStep => WriterStreamed(c, s);
        case ReaderStep => ReaderStreamed(c, s);
        case _ =>
      }
      RunStreamed(c, Next(c, s, run[0]), run[1..]);
    }
  }

  /** Through a stream buffer comes what its senders waited to send: the chunks received, joined, are the
      beginning of all that the sends were called with. */
  lemma {:induction false} StreamDelivers(c: Config, s: State, run: seq<Action>)
    requires !c.message && Initial(c, s) && LegalRun(c, s, run) && AllPatient(c, run)
    ensures var e := Exec(c, s, run);
      Joined(e.received) <= Joined(e.sent) && e.sent <= Begun(run)
  {
    RunStreamed(c, s, run);
    DeliveredInOrder(c, s, run);
    NothingPutBack(c, s, run);
    WaitingSendsAll(c, s, run);
  }

  lemma {:induction false} NothingPutBack(c: Config, s: State, run: seq<Action>)
    requires !c.message && Initial(c, s) && LegalRun(c, s, run)
    ensures !Exec(c, s, run).reader.Restoring?
  {
    RunKept(c, s, run);
  }

  // ---- a whole send ----

  // What a chunk is in the ring, and the parts in which it is written.
  function Packed(c: Config, chunk: Bytes): Bytes { if c.message then Encode(|chunk|) + chunk else chunk }

  function PartsOf(c: Config, chunk: Bytes): seq<Bytes> { if c.message then [Encode(|chunk|), chunk] else [chunk] }

  // What is sent of `data` if there is room for `room` bytes: as much as fits, or, of a message, all or nothing.
  function Fitting(c: Config, data: Bytes, room: int): Option<Bytes> {
    if room <= 0 || (c.message && room < |data| + HEADER) then None
    else Some(if c.message || |data| <= room then data else data[..room])
  }

  // State `e` is `s` after a chunk was sent by a writer that is done now.
  ghost predicate Sent(c: Config, s: State, e: State, chunk: Bytes) {
    var tells := chunk != [] && Stored(c, e.ring) >= c.trigger && s.waitingToReceive;
    && e.writer == NotSending && e.sent == s.sent + [chunk]
    && e.ring.accepted == s.ring.accepted + Packed(c, chunk)
    && e.ring.tail == s.ring.tail && e.ring.delivered == s.ring.delivered
    && e.reader == s.reader && e.received == s.received
    && e.readerNotified == (s.readerNotified || tells) && e.waitingToReceive == (s.waitingToReceive && !tells)
  }

  ghost predicate OnlyWriter(run: seq<Action>) { forall i :: 0 <= i < |run| ==> run[i] == WriterStep }

  lemma {:induction false} PartsCopied(c: Config, s: State, chunk: Bytes) returns (run: seq<Action>, e: State)
    requires Fit(c, s) && s.writer == Copying(chunk, PartsOf(c, chunk), 0) && |chunk| <= c.length
    ensures Leads(c, s, run, e) && Fit(c, e) && OnlyWriter(run) && Idle(s, e)
    ensures e.writer == (if chunk == [] then NotSending else Counting)
    ensures e.ring.accepted == s.ring.accepted + Packed(c, chunk) && e.sent == s.sent + [chunk]
  {
    PartSent(c, s);
    var n := |s.writer.parts[0]|;
    run, e := Steps(n + 1), Exec(c, s, Steps(n + 1));
    AllSteps(n + 1);
    if c.message {
      var s1 := e;
      assert s.writer.parts[1..] == [chunk];
      PartSent(c, s1);
      RunAppend(c, s, Steps(HEADER + 1), Steps(|chunk| + 1));
      AllSteps(|chunk| + 1);
      run, e := Steps(HEADER + 1) + Steps(|chunk| + 1), Exec(c, s1, Steps(|chunk| + 1));
    }
  }

  // A writer that has begun to copy a chunk sends it.
  lemma {:induction false} ChunkSent(c: Config, s: State, chunk: Bytes) returns (run: seq<Action>, e: State)
    requires Fit(c, s) && s.writer == Copying(chunk, PartsOf(c, chunk), 0) && |chunk| <= c.length
    ensures Leads(c, s, run, e) && Fit(c, e) && OnlyWriter(run) && Sent(c, s, e, chunk)
    ensures e.waitingToSend == s.waitingToSend && e.writerNotified == s.writerNotified
  {
    var first, s1 := PartsCopied(c, s, chunk);
    var last;
    last, e := Concluded(c, s1);
    RunAppend(c, s, first, last);
    run := first + last;
  }

  // The room a writer that has decided not to wait any longer goes by.
  function RoomSeen(c: Config, s: State): int
    requires s.writer.Committed?
  {
    if s.writer.space == 0 then Space(c, s.ring) else s.writer.space
  }

  // Such a writer sends what fits, or nothing.
  lemma {:induction false} CommittedSent(c: Config, s: State) returns (run: seq<Action>, e: State)
    requires Fit(c, s) && s.writer.Committed? && !s.reader.Restoring? && RoomSeen(c, s) < c.length
    ensures Leads(c, s, run, e) && Fit(c, e) && OnlyWriter(run)
    ensures e.waitingToSend == s.waitingToSend && e.writerNotified == s.writerNotified
    ensures match Fitting(c, s.writer.data, RoomSeen(c, s))
            case Some(chunk) => Sent(c, s, e, chunk)
            case None => e == s.(writer := NotSending)
  {
    var s1 := WriterNext(c, s);
    var fits := Fitting(c, s.writer.data, RoomSeen(c, s));
    var rest := [];
    e := s1;
    assert Leads(c, s1, [], s1);
    if fits.Some? {
      assert s.writer.data[..|s.writer.data|] == s.writer.data;
      rest, e := ChunkSent(c, s1, fits.value);
    }
    Then(c, s, WriterStep, rest, e);
    run := [WriterStep] + rest;
  }

  /** A send that does not wait sends what there is room for, or a message if it fits as a whole, and tells a
      waiting reader exactly if that reaches the trigger level. Otherwise it leaves nothing behind. */
  lemma {:induction false} SendAtOnce(c: Config, s: State, data: Bytes) returns (run: seq<Action>, e: State)
    requires Safe(c, s) && Fit(c, s) && s.writer == NotSending && !s.reader.Restoring?
    ensures Leads(c, s, [Send(data, false)] + run, e) && Fit(c, e) && OnlyWriter(run)
    ensures e.waitingToSend == s.waitingToSend && e.writerNotified == s.writerNotified
    ensures match Fitting(c, data, Free(c, s.ring)) case Some(chunk) => Sent(c, s, e, chunk) case None => e == s
  {
    SpaceSeen(c, s);
    run, e := CommittedSent(c, Next(c, s, Send(data, false)));
    Then(c, s, Send(data, false), run, e);
  }

  /** A send that waits goes to sleep if there is no room for all it has, and is registered to be told. */
  lemma {:induction false} SenderSleeps(c: Config, s: State, data: Bytes)
    requires Safe(c, s) && Fit(c, s) && s.writer == NotSending && !s.reader.Restoring?
    requires Free(c, s.ring) < Required(c, data)
    ensures Leads(c, s, [Send(data, true), WriterStep],
      s.(writer := Asleep(data, Free(c, s.ring)), waitingToSend := true, writerNotified := false))
  {
    SpaceSeen(c, s);
    var s1 := Next(c, s, Send(data, true));
    var e := WriterNext(c, s1);
    assert Leads(c, e, [], e);
    Then(c, s1, WriterStep, [], e);
    Then(c, s, Send(data, true), [WriterStep] + [], e);
    assert [Send(data, true)] + ([WriterStep] + []) == [Send(data, true), WriterStep];
  }

  // It wakes up and looks again.
  lemma {:induction false} SenderWakes(c: Config, s: State) returns (e: State)
    requires Fit(c, s) && s.writer.Asleep?
    ensures Leads(c, s, [WriterStep, WriterStep], e) && Fit(c, e)
    ensures e == s.(writer := Checking(s.writer.data), waitingToSend := false, writerNotified := false)
  {
    var s1 := WriterNext(c, s);
    e := WriterNext(c, s1);
    assert Leads(c, e, [], e);
    Then(c, s1, WriterStep, [], e);
    Then(c, s, WriterStep, [WriterStep] + [], e);
    assert [WriterStep] + ([WriterStep] + []) == [WriterStep, WriterStep];
  }

  // One that looks and finds room sends all it has.
  lemma {:induction false} RoomFound(c: Config, s: State) returns (run: seq<Action>, e: State)
    requires Safe(c, s) && Fit(c, s) && s.writer.Checking? && !s.reader.Restoring?
    requires 0 < Required(c, s.writer.data) <= Free(c, s.ring)
    ensures Leads(c, s, run, e) && Fit(c, e) && OnlyWriter(run) && Sent(c, s, e, s.writer.data)
    ensures e.waitingToSend == s.waitingToSend && e.writerNotified == s.writerNotified
  {
    SpaceSeen(c, s);
    var s1 := WriterNext(c, s);
    run, e := CommittedSent(c, s1);
    Then(c, s, WriterStep, run, e);
    run := [WriterStep] + run;
  }

  /** A sleeping sender that is woken sends all it has if there is room by then; if not it sleeps on. */
  lemma {:induction false} WokenSender(c: Config, s: State) returns (run: seq<Action>, e: State)
    requires Safe(c, s) && Fit(c, s) && s.writer.Asleep? && !s.reader.Restoring? && 0 < Required(c, s.writer.data)
    ensures Leads(c, s, run, e) && OnlyWriter(run) && !e.writerNotified
    ensures if Required(c, s.writer.data) <= Free(c, s.ring)
            then Sent(c, s, e, s.writer.data) && !e.waitingToSend
            else e == s.(writer := Asleep(s.writer.data, Free(c, s.ring)), waitingToSend := true,
                         writerNotified := false)
  {
    var s2 := SenderWakes(c, s);
    var rest;
    if Required(c, s.writer.data) <= Free(c, s.ring) {
      rest, e := RoomFound(c, s2);
    } else {
      SpaceSeen(c, s2);
      e := WriterNext(c, s2);
      assert Leads(c, e, [], e);
      Then(c, s2, WriterStep, [], e);
      rest := [WriterStep] + [];
    }
    RunAppend(c, s, [WriterStep, WriterStep], rest);
    run := [WriterStep, WriterStep] + rest;
  }

  /** One whose time is up sends what it had seen room for, and looks once more if it had seen none. */
  lemma {:induction false} SendTimesOut(c: Config, s: State) returns (run: seq<Action>, e: State)
    requires Safe(c, s) && Fit(c, s) && s.writer.Asleep? && !s.reader.Restoring?
    requires 0 <= s.writer.space < c.length
    ensures Leads(c, s, [WriterStep, SendExpires] + run, e) && OnlyWriter(run)
    ensures !e.waitingToSend && !e.writerNotified
    ensures match Fitting(c, s.writer.data, if s.writer.space == 0 then Free(c, s.ring) else s.writer.space)
            case Some(chunk) => Sent(c, s, e, chunk)
            case None => e == s.(writer := NotSending, waitingToSend := false, writerNotified := false)
  {
    SpaceSeen(c, s);
    var s1 := WriterNext(c, s);
    var s2 := Next(c, s1, SendExpires);
    run, e := CommittedSent(c, s2);
    Then(c, s1, SendExpires, run, e);
    Then(c, s, WriterStep, [SendExpires] + run, e);
    assert [WriterStep] + ([SendExpires] + run) == [WriterStep, SendExpires] + run;
  }

  // ---- a whole receive ----

  // State `e` is `s` after a chunk was received, and `packed` bytes with it left the ring.
  ghost predicate Received(s: State, e: State, chunk: Bytes, packed: Bytes) {
    var tells := chunk != [] && s.waitingToSend;
    && e.reader == NotReceiving && e.received == s.received + [chunk]
    && e.ring.delivered == s.ring.delivered + packed && e.ring.accepted == s.ring.accepted
    && e.writer == s.writer && e.sent == s.sent
    && e.writerNotified == (s.writerNotified || tells) && e.waitingToSend == (s.waitingToSend && !tells)
    && e.waitingToReceive == s.waitingToReceive && e.readerNotified == s.readerNotified
  }

  // The reader reads the bytes it wants, takes them, and tells a waiting sender.
  lemma {:induction false} ChunkTaken(c: Config, s: State) returns (run: seq<Action>, e: State)
    requires Safe(c, s) && Fit(c, s) && s.reader.Fetching? && !s.reader.header && s.reader.got == []
    ensures Leads(c, s, run, e) && Safe(c, e) && Fit(c, e) && AllSized(run)
    ensures var got := s.ring.accepted[|s.ring.delivered|..|s.ring.delivered| + s.reader.want];
      Received(s, e, got, got)
  {
    var first, s1 := Fetched(c, s, s.reader.want);
    var last;
    last, e := TakenAndTold(c, s1);
    run := first + last;
    InTurn(c, s, first, s1, last, e);
  }

  lemma {:induction false} TakenAndTold(c: Config, s: State) returns (run: seq<Action>, e: State)
    requires Safe(c, s) && Fit(c, s) && s.reader.Fetching? && !s.reader.header && |s.reader.got| == s.reader.want
    ensures Leads(c, s, run, e) && Safe(c, e) && Fit(c, e) && AllSized(run)
    ensures Received(s, e, s.reader.got, s.reader.got)
  {
    StepKept(c, s, ReaderStep);
    e := ReaderNext(c, s);
    assert Leads(c, s, [], s);
    Last(c, s, [], s, ReaderStep);
    run := [] + [ReaderStep];
    if e.reader.Completing? {
      var s1 := e;
      StepKept(c, s1, ReaderStep);
      e := ReaderNext(c, s1);
      Last(c, s, run, s1, ReaderStep);
      run := run + [ReaderStep];
    }
  }

  // State `e` is `s` after the oldest bytes, at most `max` of them, were received, if there were any.
  ghost predicate Read(s: State, e: State, max: nat)
    requires 0 <= Count(s.ring)
  {
    var (from, n) := (|s.ring.delivered|, Min(max, Count(s.ring)));
    if Count(s.ring) == 0 then e == s.(reader := NotReceiving)
    else Received(s, e, s.ring.accepted[from..from + n], s.ring.accepted[from..from + n])
  }

  // A receive that has counted the bytes reads as many as it may.
  lemma {:induction false} StreamTaken(c: Config, s: State, max: nat) returns (run: seq<Action>, e: State)
    requires !c.message && Safe(c, s) && Fit(c, s) && s.reader == Recounting(max)
    ensures Leads(c, s, run, e) && Safe(c, e) && Fit(c, e) && AllSized(run) && Read(s, e, max)
  {
    RingCounts(c, s.ring);
    StepKept(c, s, ReaderStep);
    var s1 := ReaderNext(c, s);
    var rest := [];
    e := s1;
    assert Leads(c, s1, [], s1);
    if Count(s.ring) > 0 {
      rest, e := ChunkTaken(c, s1);
    }
    Then(c, s, ReaderStep, rest, e);
    run := [ReaderStep] + rest;
  }

  /** A receive from a stream buffer takes the oldest bytes, no more than it was asked for, and tells a
      waiting sender if there were any; otherwise it leaves nothing behind. */
  lemma {:induction false} ReceiveAtOnce(c: Config, s: State, max: nat) returns (run: seq<Action>, e: State)
    requires !c.message && Safe(c, s) && Fit(c, s) && s.reader == NotReceiving
    ensures Leads(c, s, [Receive(max, false)] + run, e) && Safe(c, e) && Fit(c, e) && AllSized(run) && Read(s, e, max)
  {
    StepKept(c, s, Receive(max, false));
    run, e := StreamTaken(c, Next(c, s, Receive(max, false)), max);
    Then(c, s, Receive(max, false), run, e);
  }

  // A receive without waiting from a message buffer that holds a message which fits.
  lemma {:induction false} MessageReceived(c: Config, s: State, max: nat) returns (run: seq<Action>, e: State)
    requires c.message && Safe(c, s) && Fit(c, s) && s.reader == NotReceiving && Count(s.ring) > HEADER
    requires Decode(NextLength(s.ring)) <= max
    ensures Leads(c, s, run, e) && Safe(c, e) && AllSized(run)
    ensures var (length, from) := (NextLength(s.ring), |s.ring.delivered| + HEADER);
      var got := s.ring.accepted[from..from + Min(Count(s.ring) - HEADER, Decode(length))];
      Received(s, e, got, length + got)
  {
    var first, s1 := LengthTaken(c, s, max);
    var second;
    second, e := ChunkTaken(c, s1);
    run := first + second;
    InTurn(c, s, first, s1, second, e);
    var from := |s1.ring.delivered|;
    LengthAndBytes(s, s1, e, NextLength(s.ring), s1.ring.accepted[from..from + s1.reader.want]);
  }

  lemma {:induction false} InTurn(c: Config, s: State, first: seq<Action>, s1: State, second: seq<Action>, e: State)
    requires Leads(c, s, first, s1) && Leads(c, s1, second, e)
    ensures Leads(c, s, first + second, e)
  {
    RunAppend(c, s, first, second);
  }

  lemma {:induction false} LengthAndBytes(s: State, s1: State, e: State, length: Bytes, got: Bytes)
    requires s1 == s.(ring := s1.ring, reader := s1.reader) && Received(s1, e, got, got)
    requires s1.ring.accepted == s.ring.accepted && s1.ring.delivered == s.ring.delivered + length
    ensures Received(s, e, got, length + got)
  {
    assert s.ring.delivered + length + got == s.ring.delivered + (length + got);
  }

  /** A receive from a message buffer for which the message is too large, or that finds no message, leaves
      nothing behind. */
  lemma {:induction false} ReceiveRefused(c: Config, s: State, max: nat) returns (run: seq<Action>)
    requires c.message && Safe(c, s) && Fit(c, s) && s.reader == NotReceiving
    requires Count(s.ring) > HEADER ==> Decode(NextLength(s.ring)) > max
    ensures Leads(c, s, run, s)
  {
    if Count(s.ring) > HEADER {
      var s1;
      run, s1 := LengthFetched(c, s, max);
      StepKept(c, s1, ReaderStep);
      var s2 := ReaderNext(c, s1);
      Last(c, s, run, s1, ReaderStep);
      Last(c, s, run + [ReaderStep], s2, ReaderStep);
      assert ReaderNext(c, s2) == s;
      run := run + [ReaderStep] + [ReaderStep];
    } else {
      RingCounts(c, s.ring);
      var s1 := Next(c, s, Receive(max, false));
      StepKept(c, s, Receive(max, false));
      assert ReaderNext(c, s1) == s;
      assert Leads(c, s, [], s);
      Then(c, s1, ReaderStep, [], s);
      Then(c, s, Receive(max, false), [ReaderStep] + [], s);
      run := [Receive(max, false)] + ([ReaderStep] + []);
    }
  }

  /** Asking for the length of the next message reads just that length, whatever it is, and leaves nothing
      behind. */
  lemma {:induction false} LengthAsked(c: Config, s: State) returns (run: seq<Action>, read: State, rest: seq<Action>)
    requires c.message && Safe(c, s) && Fit(c, s) && s.reader == NotReceiving && Count(s.ring) > HEADER
    ensures Leads(c, s, [AskLength] + run, read) && read.reader.Fetching? && read.reader.got == NextLength(s.ring)
    ensures Leads(c, read, rest, s)
  {
    RingCounts(c, s.ring);
    StepKept(c, s, AskLength);
    run, read := Fetched(c, Next(c, s, AskLength), HEADER);
    Then(c, s, AskLength, run, read);
    rest := LengthReturned(c, s, read);
  }

  lemma {:induction false} LengthReturned(c: Config, s: State, read: State) returns (rest: seq<Action>)
    requires c.message && Safe(c, read) && Fit(c, read) && Fit(c, s) && s.reader == NotReceiving
    requires |s.ring.delivered| + HEADER <= |s.ring.accepted|
    requires read == s.(reader := Fetching(NOTHING, Count(s.ring), true, HEADER, NextLength(s.ring)))
    ensures Leads(c, read, rest, s)
  {
    StepKept(c, read, ReaderStep);
    var s2 := ReaderNext(c, read);
    assert ReaderNext(c, s2) == s;
    assert Leads(c, s, [], s);
    Then(c, s2, ReaderStep, [], s);
    Then(c, read, ReaderStep, [ReaderStep] + [], s);
    rest := [ReaderStep] + ([ReaderStep] + []);
  }

  /** A receive that waits goes to sleep if there is nothing to read, and is registered to be told. */
  lemma {:induction false} ReaderSleeps(c: Config, s: State, max: nat)
    requires Safe(c, s) && Fit(c, s) && s.reader == NotReceiving && Count(s.ring) <= Header(c)
    ensures Leads(c, s, [Receive(max, true), ReaderStep],
      s.(reader := Sleeping(max), waitingToReceive := true, readerNotified := false))
  {
    RingCounts(c, s.ring);
    var s1 := Next(c, s, Receive(max, true));
    var e := ReaderNext(c, s1);
    assert Leads(c, e, [], e);
    Then(c, s1, ReaderStep, [], e);
    Then(c, s, Receive(max, true), [ReaderStep] + [], e);
    assert [Receive(max, true)] + ([ReaderStep] + []) == [Receive(max, true), ReaderStep];
  }

  /** If there is something to read, it does as one that does not wait. */
  lemma {:induction false} ReaderReads(c: Config, s: State, max: nat)
    requires Safe(c, s) && Fit(c, s) && s.reader == NotReceiving && Count(s.ring) > Header(c)
    ensures Next(c, Next(c, s, Receive(max, true)), ReaderStep) == Next(c, Next(c, s, Receive(max, false)), ReaderStep)
  {
    RingCounts(c, s.ring);
  }

  // A sleeping reader wakes up, told or not, and counts the bytes again.
  lemma {:induction false} ReaderWakes(c: Config, s: State) returns (e: State)
    requires Safe(c, s) && Fit(c, s) && s.reader.Sleeping?
    ensures Leads(c, s, [ReaderStep, ReaderStep], e) && Safe(c, e) && Fit(c, e)
    ensures e == s.(reader := Recounting(s.reader.max), waitingToReceive := false, readerNotified := false)
  {
    var s1 := ReaderNext(c, s);
    e := ReaderNext(c, s1);
    assert Leads(c, e, [], e);
    Then(c, s1, ReaderStep, [], e);
    Then(c, s, ReaderStep, [ReaderStep] + [], e);
    assert [ReaderStep] + ([ReaderStep] + []) == [ReaderStep, ReaderStep];
  }

  /** A reader of a stream buffer that wakes up takes what there is; if its time is up and there is nothing,
      it leaves nothing behind. */
  lemma {:induction false} WokenReader(c: Config, s: State) returns (run: seq<Action>, e: State)
    requires !c.message && Safe(c, s) && Fit(c, s) && s.reader.Sleeping?
    ensures Leads(c, s, run, e)
    ensures Read(s.(waitingToReceive := false, readerNotified := false), e, s.reader.max)
  {
    var s2 := ReaderWakes(c, s);
    var rest;
    rest, e := StreamTaken(c, s2, s.reader.max);
    RunAppend(c, s, [ReaderStep, ReaderStep], rest);
    run := [ReaderStep, ReaderStep] + rest;
  }

  // ---- both sides together ----

  // A chunk that is all there is to read is received as a whole.
  lemma {:induction false} WholeReceived(c: Config, s: State, chunk: Bytes) returns (run: seq<Action>, e: State)
    requires Safe(c, s) && Fit(c, s) && s.reader == NotReceiving && chunk != [] && |chunk| < MAX_LENGTH
    requires s.ring.accepted == s.ring.delivered + Packed(c, chunk)
    ensures Leads(c, s, run, e) && Safe(c, e) && Received(s, e, chunk, Packed(c, chunk))
  {
    if c.message {
      run, e := WholeMessageReceived(c, s, chunk);
    } else {
      var from := |s.ring.delivered|;
      assert s.ring.accepted[from..from + |chunk|] == chunk;
      run, e := ReceiveAtOnce(c, s, |chunk|);
      run := [Receive(|chunk|, false)] + run;
    }
  }

  lemma {:induction false} WholeMessageReceived(c: Config, s: State, chunk: Bytes) returns (run: seq<Action>, e: State)
    requires c.message && Safe(c, s) && Fit(c, s) && s.reader == NotReceiving && chunk != [] && |chunk| < MAX_LENGTH
    requires s.ring.accepted == s.ring.delivered + (Encode(|chunk|) + chunk)
    ensures Leads(c, s, run, e) && Safe(c, e) && Received(s, e, chunk, Encode(|chunk|) + chunk)
  {
    EncodeDecode(|chunk|);
    LengthInFront(s.ring, chunk);
    run, e := MessageReceived(c, s, |chunk|);
  }

  lemma {:induction false} LengthInFront(r: Ring, chunk: Bytes)
    requires r.accepted == r.delivered + (Encode(|chunk|) + chunk)
    ensures Count(r) == HEADER + |chunk| && NextLength(r) == Encode(|chunk|)
    ensures var from := |r.delivered| + HEADER; r.accepted[from..from + |chunk|] == chunk
  {
    assert r.accepted == r.delivered + Encode(|chunk|) + chunk;
  }

  // A new buffer is filled to the last byte.
  lemma {:induction false} Filled(c: Config, s: State, data: Bytes) returns (run: seq<Action>, e: State)
    requires Initial(c, s) && data != [] && |data| < MAX_LENGTH && Required(c, data) == c.length - 1
    ensures Leads(c, s, run, e) && Safe(c, e) && Fit(c, e) && Free(c, e.ring) == 0
    ensures e.writer == NotSending && e.reader == NotReceiving && !e.waitingToSend && !e.waitingToReceive
    ensures e.ring.accepted == Packed(c, data) && e.ring.delivered == [] && e.sent == [data] && e.received == []
  {
    var rest;
    rest, e := SendAtOnce(c, s, data);
    run := [Send(data, false)] + rest;
    RunKept(c, s, run);
  }

  // In it a sender goes to sleep.
  lemma {:induction false} FilledSleeps(c: Config, s: State, data: Bytes, more: Bytes)
    returns (run: seq<Action>, e: State)
    requires Initial(c, s) && data != [] && |data| < MAX_LENGTH && Required(c, data) == c.length - 1
    requires Required(c, more) > 0
    ensures Leads(c, s, run, e) && Safe(c, e) && Fit(c, e) && e.reader == NotReceiving
    ensures e.writer == Asleep(more, 0) && e.waitingToSend && !e.writerNotified
    ensures e.ring.accepted == Packed(c, data) && e.ring.delivered == [] && e.sent == [data] && e.received == []
  {
    var s1;
    run, s1 := Filled(c, s, data);
    SenderSleeps(c, s1, more);
    var sleep := [Send(more, true), WriterStep];
    e := Exec(c, s1, sleep);
    RunAppend(c, s, run, sleep);
    run := run + sleep;
    RunKept(c, s, run);
  }

  /** The handshake of a sender, in either kind of buffer: it falls asleep in a full buffer, is told when the
      reader has made room, and then sends all it has. */
  lemma {:induction false} SleeperServed(c: Config, s: State, data: Bytes, more: Bytes)
    returns (first: seq<Action>, asleep: State, second: seq<Action>, told: State, third: seq<Action>, e: State)
    requires Initial(c, s) && data != [] && |data| < MAX_LENGTH && Required(c, data) == c.length - 1
    requires 0 < Required(c, more) < c.length
    ensures Leads(c, s, first, asleep) && asleep.writer == Asleep(more, 0) && !asleep.writerNotified
    ensures Leads(c, asleep, second, told) && told.writer == asleep.writer && told.writerNotified
    ensures told.received == [data]
    ensures Leads(c, told, third, e) && OnlyWriter(third) && e.writer == NotSending && e.sent == [data, more]
  {
    first, asleep := FilledSleeps(c, s, data, more);
    assert asleep.ring.accepted == asleep.ring.delivered + Packed(c, data);
    second, told := WholeReceived(c, asleep, data);
    third, e := WokenSender(c, told);
  }
}
