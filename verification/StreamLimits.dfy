/** Where a message buffer does not keep its promises: a writer that reads the space while the reader
    puts back a length, and empty messages. */
module StreamLimits {
  import opened Basics
  import opened StreamIndex
  import opened StreamProtocol
  import opened StreamSafety
  import opened StreamFraming
  import opened StreamRuns

  // ---- empty messages ----

  /** A send that runs from beginning to end while the reader sleeps leaves bytes to read - but it
      wakes the reader exactly if the message is not empty. After an empty message the reader sleeps
      on, with the trigger level reached and no notification to come. */
  lemma {:induction false} EmptyMessageStrands(c: Config, s: State, data: Bytes) returns (run: seq<Action>)
    requires c.message && c.trigger == 1 && RingSafe(c, s.ring) && Fit(c, s)
    requires s.writer == NotSending && s.reader.Sleeping? && s.waitingToReceive && !s.readerNotified
    requires |data| + HEADER <= Space(c, s.ring)
    ensures run != [] && run[0] == Send(data, false) && forall i :: 1 <= i < |run| ==> run[i] == WriterStep
    ensures LegalRun(c, s, run)
    ensures var s' := Exec(c, s, run);
      && s'.writer == NotSending && s'.reader == s.reader && Stored(c, s'.ring) >= c.trigger
      && (s'.readerNotified <==> data != [])
  {
    RingCounts(c, s.ring);
    var send := BothPartsSent(c, s, data);
    var last, e := Concluded(c, Exec(c, s, send));
    RunAppend(c, s, send, last);
    run := send + last;
  }

  /** Such a reader is only a call away: one that waits for messages in a new buffer is left asleep by an
      empty message, with more than nothing to read and no notification. */
  lemma {:induction false} EmptyMessageStrandsReader(c: Config, s: State, max: nat) returns (run: seq<Action>, e: State)
    requires c.message && HEADER < c.length && Initial(c, s)
    ensures Leads(c, s, run, e) && e.sent == s.sent + [[]] && e.writer == NotSending
    ensures e.reader == Sleeping(max) && !e.readerNotified && Stored(c, e.ring) >= c.trigger
  {
    var s1 := Next(c, s, Receive(max, true));
    var s2 := ReaderNext(c, s1);
    RingCounts(c, s2.ring);
    assert Leads(c, s, [], s);
    Last(c, s, [], s, Receive(max, true));
    Last(c, s, [] + [Receive(max, true)], s1, ReaderStep);
    var sleep := [] + [Receive(max, true)] + [ReaderStep];
    var send := BothPartsSent(c, s2, []);
    RunAppend(c, s, sleep, send);
    run, e := sleep + send, Exec(c, s2, send);
  }

  // ---- a space that is read while a length is put back ----

  // The counts are those of the bytes accepted and delivered.
  ghost predicate Counted(c: Config, s: State) {
    var r := Settled(s.ring, s.reader); Stored(c, r) == Count(r)
  }

  // A writer step keeps the ring consistent exactly if it does not mislead the writer.
  lemma {:induction false} SafeUnlessMisled(c: Config, s: State)
    requires Safe(c, s) && Fit(c, s) && !s.writer.NotSending?
    ensures Safe(c, WriterNext(c, s)) <==> !Misled(c, s)
  {
    if Misled(c, s) {
      SpaceSeen(c, s);
    } else {
      WriterKept(c, s);
    }
  }

  /** A misled writer overruns the reader: once the length is put back and the message written, the ring
      has gone round, and less than a length is left to read - at least two messages are lost. */
  lemma {:induction false} MisledOverruns(c: Config, s: State) returns (run: seq<Action>, e: State)
    requires Framed(c, s) && Misled(c, s)
    ensures Leads(c, WriterNext(c, s), run, e) && Fit(c, e) && AllSized(run)
    ensures e.writer == NotSending && e.reader == NotReceiving
    ensures e.sent == s.sent + [s.writer.data] && e.received == s.received
    ensures var left := Count(s.ring) + Required(c, s.writer.data) - c.length;
      && 0 <= left < HEADER && e.ring.head == Advance(c.length, e.ring.tail, left)
      && Stored(c, e.ring) == left && Count(e.ring) == left + c.length
      && Stored(c, e.ring) <= HEADER < Count(e.ring) && |e.received| + 2 <= |e.sent|
  {
    var data, r := s.writer.data, Settled(s.ring, s.reader);
    SpaceSeen(c, s);
    var first, s1 := GoesAhead(c, s);
    var second;
    second, e := Written(c, s1, data);
    RunAppend(c, WriterNext(c, s), first, second);
    run := first + second;
    GoneRound(c.length, r.tail, Count(r), HEADER, |data|);
  }

  // The length is put back, and the misled writer goes on to write.
  lemma {:induction false} GoesAhead(c: Config, s: State) returns (run: seq<Action>, e: State)
    requires Fit(c, s) && Misled(c, s) && c.message
    ensures Leads(c, WriterNext(c, s), run, e) && Fit(c, e) && AllSized(run)
    ensures e.ring == Settled(s.ring, s.reader) && e.reader == NotReceiving
    ensures e.sent == s.sent && e.received == s.received
    ensures e.writer == Copying(s.writer.data, [Encode(|s.writer.data|), s.writer.data], 0)
  {
    var s1 := WriterNext(c, s);
    e := ReaderNext(c, s1);
    assert Leads(c, s1, [], s1);
    Last(c, s1, [], s1, ReaderStep);
    run := [] + [ReaderStep];
    if s1.writer.Committed? {
      var s2 := e;
      e := WriterNext(c, s2);
      Last(c, s1, run, s2, WriterStep);
      run := run + [WriterStep];
    }
  }

  // Beyond a full round the indices count from the beginning.
  lemma {:induction false} GoneRound(length: nat, tail: nat, count: nat, a: nat, b: nat)
    requires tail < length && count < length && a < length && b < length && length <= count + a + b < 2 * length
    ensures Advance(length, Advance(length, Advance(length, tail, count), a), b)
         == Advance(length, tail, count + a + b - length)
    ensures BytesInBuffer(length, Advance(length, tail, count + a + b - length), tail) == count + a + b - length
  {
  }

  // ---- what the reader makes of an overrun ring ----

  // The same indices, bytes and positions, with other histories.
  ghost predicate Alike(s: State, s': State) {
    s' == s.(ring := s.ring.(accepted := s'.ring.accepted, delivered := s'.ring.delivered))
  }

  // The histories steer nothing.
  lemma {:induction false} RunAlike(c: Config, s: State, s': State, run: seq<Action>)
    requires Alike(s, s') && LegalRun(c, s, run)
    ensures LegalRun(c, s', run) && Alike(Exec(c, s, run), Exec(c, s', run))
    decreases |run|
  {
    if run != [] {
      StepAlike(c, s, s', run[0]);
      RunAlike(c, Next(c, s, run[0]), Next(c, s', run[0]), run[1..]);
    }
  }

  lemma {:induction false} WriterAlike(c: Config, s: State, s': State)
    requires Alike(s, s') && Fit(c, s)
    ensures Alike(WriterNext(c, s), WriterNext(c, s'))
  {
    if s.writer.Copying? {
      var (part, done) := (s.writer.parts[0], s.writer.done);
      if done < |part| {
        assert Put(c, s'.ring, part, done).buffer == Put(c, s.ring, part, done).buffer;
      } else {
        assert PublishHead(c, s'.ring, part).head == PublishHead(c, s.ring, part).head;
      }
    }
  }

  lemma {:induction false} ReaderAlike(c: Config, s: State, s': State)
    requires Alike(s, s') && Fit(c, s)
    ensures Alike(ReaderNext(c, s), ReaderNext(c, s'))
  {
  }

  lemma {:induction false} StepAlike(c: Config, s: State, s': State, a: Action)
    requires Alike(s, s') && Fit(c, s) && Legal(c, s, a)
    ensures Fit(c, s') && Legal(c, s', a) && Alike(Next(c, s, a), Next(c, s', a))
  {
    match a
    case WriterStep => WriterAlike(c, s, s');
    case ReaderStep => ReaderAlike(c, s, s');
    case _ =>
  }

  lemma {:induction false} ValueAtLeast(b: Bytes, i: nat)
    requires i < |b| && b[i] > 0
    ensures Value(b) > i
    decreases i
  {
    if i > 0 {
      ValueAtLeast(b[1..], i - 1);
    }
  }

  // The bytes that seem to be stored are as good as any history.
  lemma {:induction false} Rewritten(c: Config, s: State, left: nat) returns (s': State)
    requires 1 < c.length && Fit(c, s) && s.writer == NotSending && s.reader == NotReceiving
    requires left < c.length && s.ring.head == Advance(c.length, s.ring.tail, left)
    ensures Alike(s', s) && Safe(c, s') && Fit(c, s') && |s'.ring.accepted| == left && s'.ring.delivered == []
  {
    var seen := seq(left, d requires 0 <= d < left => s.ring.buffer[Advance(c.length, s.ring.tail, d)]);
    s' := s.(ring := s.ring.(accepted := seen, delivered := []));
  }

  // In an overrun ring a message of one byte comes out as another.
  lemma {:induction false} Garbled(c: Config, s: State, left: nat, x: Byte)
    returns (run: seq<Action>, e: State, got: Bytes)
    requires c.message && 2 * HEADER < c.length && Fit(c, s) && s.writer == NotSending && s.reader == NotReceiving
    requires left < HEADER && s.ring.head == Advance(c.length, s.ring.tail, left)
    ensures Leads(c, s, run, e) && AllSized(run)
    ensures e.sent == s.sent + [[x]] && e.received == s.received + [got] && |got| == left + 1 && got[left] == x
  {
    var s1 := Rewritten(c, s, left);
    var send, s2 := MessageSent(c, s1, [x]);
    var all := s2.ring.accepted;
    assert Encode(1) == [1, 0, 0, 0];
    var receive, s3;
    receive, s3, got := Taken(c, s2, Decode(NextLength(s2.ring)));
    assert all[left] == 1 && all[left + HEADER] == x;
    ValueAtLeast(all[..HEADER], left);
    RunAppend(c, s1, send, receive);
    run := send + receive;
    RunAlike(c, s1, s, run);
    e := Exec(c, s, run);
  }

  /** Exactly the misled writers do harm. If a writer reads the space while a length is put back and is
      not misled, the counts stay right in every run that follows, and the messages received are the
      first of those sent. If it is misled, there is a run after which the counts are a whole round
      short, and one in which a message is received that was not the next. */
  lemma {:induction false} MisledExactly(c: Config, s: State)
    requires Framed(c, s) && s.reader.Restoring? && ReadsSpace(s.writer)
    ensures !Misled(c, s) <==> forall run :: Follows(c, s, run) ==> Counted(c, Exec(c, WriterNext(c, s), run))
    ensures 2 * HEADER < c.length ==>
      (!Misled(c, s) <==> forall run :: Follows(c, s, run) ==> Faithful(Exec(c, WriterNext(c, s), run)))
  {
    if Misled(c, s) {
      var run, e := MisledOverruns(c, s);
      assert Follows(c, s, run) && !Counted(c, Exec(c, WriterNext(c, s), run));
      if 2 * HEADER < c.length {
        var worse := OrderBroken(c, s, run, e);
        assert Follows(c, s, worse) && !Faithful(Exec(c, WriterNext(c, s), worse));
      }
    } else {
      forall run | Follows(c, s, run)
        ensures Counted(c, Exec(c, WriterNext(c, s), run)) && Faithful(Exec(c, WriterNext(c, s), run))
      {
        StepFramed(c, s, WriterStep);
        RunFramed(c, WriterNext(c, s), run);
        SpaceSeen(c, Exec(c, WriterNext(c, s), run));
      }
    }
  }

  ghost predicate Follows(c: Config, s: State, run: seq<Action>)
    requires Fit(c, s)
  {
    LegalRun(c, WriterNext(c, s), run) && AllSized(run)
  }

  predicate Faithful(s: State) { s.received <= s.sent }

  lemma {:induction false} OrderBroken(c: Config, s: State, run: seq<Action>, e: State) returns (worse: seq<Action>)
    requires Framed(c, s) && Misled(c, s) && 2 * HEADER < c.length
    requires Leads(c, WriterNext(c, s), run, e) && Fit(c, e) && AllSized(run)
    requires e.writer == NotSending && e.reader == NotReceiving
    requires e.sent == s.sent + [s.writer.data] && e.received == s.received
    requires var left := Count(s.ring) + Required(c, s.writer.data) - c.length;
      0 <= left < HEADER && e.ring.head == Advance(c.length, e.ring.tail, left)
    ensures Follows(c, s, worse) && !Faithful(Exec(c, WriterNext(c, s), worse))
  {
    var left := Count(s.ring) + Required(c, s.writer.data) - c.length;
    var due := s.sent[|s.received|];
    var x := if |due| == left + 1 && due[left] == 0 then 1 else 0;
    var more, e', got := Garbled(c, e, left, x);
    worse := run + more;
    RunAppend(c, WriterNext(c, s), run, more);
    assert e'.sent[|s.received|] == due && e'.received[|s.received|] == got != due;
  }

  // A message is sent, and a receive finds it too large.
  lemma {:induction false} LengthPutBack(c: Config, s: State, m: Bytes) returns (run: seq<Action>, e: State)
    requires c.message && Initial(c, s) && m != [] && HEADER + |m| < c.length < MAX_LENGTH
    ensures Leads(c, s, run, e) && Safe(c, e) && Fit(c, e) && AllSized(run)
    ensures e.reader.Restoring? && e.writer == NotSending && e.sent == [m] && e.received == []
    ensures Count(e.ring) == HEADER + |m|
  {
    var send, s1 := MessageSent(c, s, m);
    EncodeDecode(|m|);
    assert NextLength(s1.ring) == Encode(|m|);
    var receive;
    receive, e := TooLarge(c, s1, 0);
    RunAppend(c, s, send, receive);
    run := send + receive;
  }

  /** There is such a run for every ring that can hold a message at all: a message is sent, a receive
      finds it too large, and another message, which fills the rest of the ring, finds its length free. */
  lemma {:induction false} WriterIsMisled(c: Config, s: State, m: Bytes, data: Bytes)
    returns (run: seq<Action>, e: State)
    requires c.message && Initial(c, s) && c.length < MAX_LENGTH
    requires m != [] && HEADER + |m| + |data| + 1 == c.length
    ensures Leads(c, s, run, e) && AllSized(run) && e.sent == [m] && e.received == []
    ensures Framed(c, e) && Misled(c, e) && e.writer == Committed(data, 0)
  {
    var first, s1 := LengthPutBack(c, s, m);
    e := Next(c, s1, Send(data, false));
    Last(c, s, first, s1, Send(data, false));
    run := first + [Send(data, false)];
    RunFramed(c, s, run);
    SpaceSeen(c, e);
  }
}
