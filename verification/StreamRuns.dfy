/** Runs of stream_buffer.c in which nothing comes in between: a whole send, and a whole receive. */
module StreamRuns {
  import opened Basics
  import opened StreamIndex
  import opened StreamProtocol
  import opened StreamSafety
  import opened StreamFraming

  // ---- runs ----

  ghost predicate Leads(c: Config, s: State, run: seq<Action>, e: State) {
    LegalRun(c, s, run) && Exec(c, s, run) == e
  }

  lemma {:induction false} RunAppend(c: Config, s: State, first: seq<Action>, second: seq<Action>)
    requires LegalRun(c, s, first) && LegalRun(c, Exec(c, s, first), second)
    ensures LegalRun(c, s, first + second)
    ensures Exec(c, s, first + second) == Exec(c, Exec(c, s, first), second)
    decreases |first|
  {
    if first == [] {
      assert first + second == second;
    } else {
      assert (first + second)[0] == first[0] && (first + second)[1..] == first[1..] + second;
      RunAppend(c, Next(c, s, first[0]), first[1..], second);
    }
  }

  lemma {:induction false} Then(c: Config, s: State, a: Action, run: seq<Action>, e: State)
    requires Fit(c, s) && Legal(c, s, a) && Leads(c, Next(c, s, a), run, e)
    ensures Leads(c, s, [a] + run, e)
  {
    assert ([a] + run)[0] == a && ([a] + run)[1..] == run;
  }

  lemma {:induction false} Last(c: Config, s: State, run: seq<Action>, e: State, a: Action)
    requires Leads(c, s, run, e) && Fit(c, e) && Legal(c, e, a)
    ensures Leads(c, s, run + [a], Next(c, e, a))
  {
    assert [a][1..] == [];
    assert Leads(c, Next(c, e, a), [], Next(c, e, a));
    assert Exec(c, e, [a]) == Next(c, e, a);
    RunAppend(c, s, run, [a]);
  }

  ghost predicate AllSized(run: seq<Action>) { forall i :: 0 <= i < |run| ==> Sized(run[i]) }

  // ---- a send ----

  function Steps(n: nat): (run: seq<Action>)
    ensures |run| == n
  {
    if n == 0 then [] else [WriterStep] + Steps(n - 1)
  }

  lemma {:induction false} AllSteps(n: nat)
    ensures forall i :: 0 <= i < n ==> Steps(n)[i] == WriterStep
  {
    if n > 0 {
      AllSteps(n - 1);
    }
  }

  lemma {:induction false} StepsSnoc(n: nat)
    ensures Steps(n) + [WriterStep] == Steps(n + 1)
  {
    if n > 0 {
      StepsSnoc(n - 1);
    }
  }

  ghost predicate Idle(s: State, s': State) {
    && s'.reader == s.reader && s'.received == s.received
    && s'.waitingToReceive == s.waitingToReceive && s'.readerNotified == s.readerNotified
    && s'.ring.tail == s.ring.tail && s'.ring.delivered == s.ring.delivered
    && s'.waitingToSend == s.waitingToSend && s'.writerNotified == s.writerNotified
  }

  // The bytes of one part are copied.
  lemma {:induction false} CopyAll(c: Config, s: State, n: nat)
    requires Fit(c, s) && s.writer.Copying? && n == |s.writer.parts[0]| - s.writer.done
    ensures LegalRun(c, s, Steps(n))
    ensures var s' := Exec(c, s, Steps(n));
      && Fit(c, s') && Idle(s, s') && s'.writer == s.writer.(done := |s.writer.parts[0]|)
      && s'.ring.head == s.ring.head && s'.ring.accepted == s.ring.accepted && s'.sent == s.sent
    decreases n
  {
    if n > 0 {
      var s1 := WriterNext(c, s);
      assert Steps(n)[0] == WriterStep && Steps(n)[1..] == Steps(n - 1);
      CopyAll(c, s1, n - 1);
    }
  }

  // One part is copied and published.
  lemma {:induction false} PartSent(c: Config, s: State)
    requires Fit(c, s) && s.writer.Copying? && s.writer.done == 0
    requires |s.writer.parts| > 1 ==> |s.writer.parts[1]| <= c.length
    ensures LegalRun(c, s, Steps(|s.writer.parts[0]| + 1))
    ensures var s' := Exec(c, s, Steps(|s.writer.parts[0]| + 1));
      && Fit(c, s') && Idle(s, s') && s'.ring.head == Advance(c.length, s.ring.head, |s.writer.parts[0]|)
      && s'.writer == (if |s.writer.parts| > 1 then Copying(s.writer.message, s.writer.parts[1..], 0)
                       else if s.writer.message == [] then NotSending else Counting)
      && s'.ring.accepted == s.ring.accepted + s.writer.parts[0]
      && s'.sent == if |s.writer.parts| > 1 then s.sent else s.sent + [s.writer.message]
  {
    var n := |s.writer.parts[0]|;
    CopyAll(c, s, n);
    var s1 := Exec(c, s, Steps(n));
    assert Steps(1) == [WriterStep];
    RunAppend(c, s, Steps(n), [WriterStep]);
    StepsSnoc(n);
  }

  lemma {:induction false} StoredGrows(c: Config, r: Ring, a: nat, b: nat)
    requires RingSafe(c, r) && a + b <= Space(c, r)
    ensures BytesInBuffer(c.length, Advance(c.length, Advance(c.length, r.head, a), b), r.tail) == Stored(c, r) + a + b
  {
    RingCounts(c, r);
    AdvanceTwice(c.length, r.tail, Count(r), a);
    AdvanceTwice(c.length, r.tail, Count(r) + a, b);
  }

  // A send without waiting that has found room.
  lemma {:induction false} Begun(c: Config, s: State, data: Bytes) returns (run: seq<Action>, e: State)
    requires c.message && RingSafe(c, s.ring) && Fit(c, s) && s.writer == NotSending && !s.reader.Restoring?
    requires |data| + HEADER <= Space(c, s.ring)
    ensures run == [Send(data, false), WriterStep] && Leads(c, s, run, e) && Fit(c, e) && |data| < c.length
    ensures e == s.(writer := Copying(data, [Encode(|data|), data], 0))
  {
    RingCounts(c, s.ring);
    var s1 := Next(c, s, Send(data, false));
    e := WriterNext(c, s1);
    assert Leads(c, s, [], s);
    Last(c, s, [], s, Send(data, false));
    Last(c, s, [] + [Send(data, false)], s1, WriterStep);
    run := [] + [Send(data, false)] + [WriterStep];
  }

  // Both parts of a message, up to the point where the writer knows how much it has sent.
  lemma {:induction false} BothPartsSent(c: Config, s: State, data: Bytes) returns (run: seq<Action>)
    requires c.message && RingSafe(c, s.ring) && Fit(c, s) && s.writer == NotSending && !s.reader.Restoring?
    requires |data| + HEADER <= Space(c, s.ring)
    ensures run != [] && run[0] == Send(data, false) && forall i :: 1 <= i < |run| ==> run[i] == WriterStep
    ensures LegalRun(c, s, run)
    ensures var s' := Exec(c, s, run);
      && Idle(s, s') && Fit(c, s') && s'.writer == (if data == [] then NotSending else Counting)
      && Stored(c, s'.ring) == Stored(c, s.ring) + HEADER + |data|
      && s'.ring.accepted == s.ring.accepted + Encode(|data|) + data && s'.sent == s.sent + [data]
  {
    var first, s2 := Begun(c, s, data);
    PartSent(c, s2);
    var s3 := Exec(c, s2, Steps(HEADER + 1));
    assert s2.writer.parts[1..] == [data];
    PartSent(c, s3);
    RunAppend(c, s2, Steps(HEADER + 1), Steps(|data| + 1));
    RunAppend(c, s, first, Steps(HEADER + 1) + Steps(|data| + 1));
    run := first + (Steps(HEADER + 1) + Steps(|data| + 1));
    AllSteps(HEADER + 1);
    AllSteps(|data| + 1);
    StoredGrows(c, s.ring, HEADER, |data|);
  }

  // What is left to do once both parts were published.
  lemma {:induction false} Concluded(c: Config, s: State) returns (run: seq<Action>, e: State)
    requires Fit(c, s) && (s.writer.NotSending? || s.writer.Counting?)
    ensures Leads(c, s, run, e) && Fit(c, e) && e.writer == NotSending
    ensures e.ring == s.ring && e.reader == s.reader && e.sent == s.sent && e.received == s.received
    ensures var tells := s.writer.Counting? && Stored(c, s.ring) >= c.trigger && s.waitingToReceive;
      e == s.(writer := NotSending, readerNotified := s.readerNotified || tells,
              waitingToReceive := s.waitingToReceive && !tells)
    ensures forall i :: 0 <= i < |run| ==> run[i] == WriterStep
  {
    run, e := [], s;
    if s.writer.Counting? {
      var s1 := WriterNext(c, s);
      if s1.writer.Notifying? {
        e := WriterNext(c, s1);
        assert Leads(c, e, [], e);
        Then(c, s1, WriterStep, [], e);
        run := [WriterStep] + [];
      } else {
        e := s1;
        assert Leads(c, e, [], e);
      }
      Then(c, s, WriterStep, run, e);
      run := [WriterStep] + run;
    }
  }

  // A writer that has decided to write a message does so.
  lemma {:induction false} Written(c: Config, s: State, data: Bytes) returns (run: seq<Action>, e: State)
    requires Fit(c, s) && s.writer == Copying(data, [Encode(|data|), data], 0) && |data| <= c.length
    ensures Leads(c, s, run, e) && Fit(c, e) && e.writer == NotSending
    ensures e.reader == s.reader && e.sent == s.sent + [data] && e.received == s.received
    ensures e.ring.tail == s.ring.tail && e.ring.delivered == s.ring.delivered
    ensures e.ring.head == Advance(c.length, Advance(c.length, s.ring.head, HEADER), |data|)
    ensures e.ring.accepted == s.ring.accepted + Encode(|data|) + data
    ensures forall i :: 0 <= i < |run| ==> run[i] == WriterStep
  {
    PartSent(c, s);
    var s1 := Exec(c, s, Steps(HEADER + 1));
    assert s.writer.parts[1..] == [data];
    PartSent(c, s1);
    var s2 := Exec(c, s1, Steps(|data| + 1));
    var last;
    last, e := Concluded(c, s2);
    RunAppend(c, s1, Steps(|data| + 1), last);
    RunAppend(c, s, Steps(HEADER + 1), Steps(|data| + 1) + last);
    AllSteps(HEADER + 1);
    AllSteps(|data| + 1);
    run := Steps(HEADER + 1) + (Steps(|data| + 1) + last);
  }

  // A message is sent, from beginning to end.
  lemma {:induction false} MessageSent(c: Config, s: State, m: Bytes) returns (run: seq<Action>, e: State)
    requires c.message && Safe(c, s) && Fit(c, s) && s.writer == NotSending && !s.reader.Restoring?
    requires |m| + HEADER <= Free(c, s.ring) && |m| < MAX_LENGTH
    ensures Leads(c, s, run, e) && Safe(c, e) && Fit(c, e) && AllSized(run) && e.writer == NotSending
    ensures e.ring.accepted == s.ring.accepted + Encode(|m|) + m && e.ring.delivered == s.ring.delivered
    ensures e.sent == s.sent + [m] && e.received == s.received && e.reader == s.reader
  {
    RingCounts(c, s.ring);
    var send := BothPartsSent(c, s, m);
    var last;
    last, e := Concluded(c, Exec(c, s, send));
    run := send + last;
    RunAppend(c, s, send, last);
    RunKept(c, s, run);
  }

  // ---- a receive ----

  // The bytes that a reader takes for the length of the next message.
  function NextLength(r: Ring): Bytes
    requires |r.delivered| + HEADER <= |r.accepted|
  {
    r.accepted[|r.delivered|..|r.delivered| + HEADER]
  }

  // One step copies one byte and changes nothing else.
  lemma {:induction false} ByteFetched(c: Config, s: State) returns (s': State)
    requires Safe(c, s) && Fit(c, s) && s.reader.Fetching? && |s.reader.got| < s.reader.want
    ensures s' == ReaderNext(c, s) && Legal(c, s, ReaderStep) && Safe(c, s') && Fit(c, s')
    ensures s'.reader.Fetching? && |s'.reader.got| == |s.reader.got| + 1
    ensures s' == s.(reader := s.reader.(got := s'.reader.got))
  {
    StepKept(c, s, ReaderStep);
    s' := ReaderNext(c, s);
  }

  // The reader copies all it wants.
  lemma {:induction false} Fetched(c: Config, s: State, n: nat) returns (run: seq<Action>, e: State)
    requires Safe(c, s) && Fit(c, s) && s.reader.Fetching? && n == s.reader.want - |s.reader.got|
    ensures Leads(c, s, run, e) && Safe(c, e) && Fit(c, e) && AllSized(run)
    ensures e == s.(reader := s.reader.(got := s.ring.accepted[|s.ring.delivered|..|s.ring.delivered| + s.reader.want]))
    decreases n
  {
    if n == 0 {
      run, e := [], s;
    } else {
      var s' := ByteFetched(c, s);
      run, e := Fetched(c, s', n - 1);
      Then(c, s, ReaderStep, run, e);
      run := [ReaderStep] + run;
    }
  }

  // A receive without waiting begins with the length of the next message.
  lemma {:induction false} Called(c: Config, s: State, max: nat) returns (run: seq<Action>, e: State)
    requires c.message && Safe(c, s) && Fit(c, s) && s.reader == NotReceiving && Count(s.ring) > HEADER
    ensures Leads(c, s, run, e) && Safe(c, e) && Fit(c, e) && AllSized(run)
    ensures e == s.(reader := Fetching(max, Count(s.ring), true, HEADER, []))
  {
    var call := Receive(max, false);
    RingCounts(c, s.ring);
    StepKept(c, s, call);
    var s1 := Next(c, s, call);
    StepKept(c, s1, ReaderStep);
    e := ReaderNext(c, s1);
    assert Leads(c, s, [], s);
    Last(c, s, [], s, call);
    Last(c, s, [] + [call], s1, ReaderStep);
    run := [] + [call] + [ReaderStep];
  }

  lemma {:induction false} LengthFetched(c: Config, s: State, max: nat) returns (run: seq<Action>, e: State)
    requires c.message && Safe(c, s) && Fit(c, s) && s.reader == NotReceiving && Count(s.ring) > HEADER
    ensures Leads(c, s, run, e) && Safe(c, e) && Fit(c, e) && AllSized(run)
    ensures e == s.(reader := Fetching(max, Count(s.ring), true, HEADER, NextLength(s.ring)))
  {
    var first, s1 := Called(c, s, max);
    var second;
    second, e := Fetched(c, s1, HEADER);
    RunAppend(c, s, first, second);
    run := first + second;
  }

  lemma {:induction false} LengthPassed(c: Config, s: State) returns (e: State)
    requires Safe(c, s) && Fit(c, s) && s.reader.Fetching? && s.reader.header && |s.reader.got| == HEADER
    requires Takes(s.reader)
    ensures e == ReaderNext(c, s) && Legal(c, s, ReaderStep) && Safe(c, e) && Fit(c, e)
    ensures var (r, n, length) := (s.ring, s.reader.available - HEADER, Decode(s.reader.got));
      && e.reader == Fetching(s.reader.room, n, false, Min(n, length), [])
      && e.ring.accepted == r.accepted && e.ring.delivered == r.delivered + s.reader.got
      && e == s.(ring := e.ring, reader := e.reader)
  {
    StepKept(c, s, ReaderStep);
    e := ReaderNext(c, s);
  }

  // The reader has read a length and goes on to the bytes of the message.
  lemma {:induction false} LengthTaken(c: Config, s: State, max: nat) returns (run: seq<Action>, e: State)
    requires c.message && Safe(c, s) && Fit(c, s) && s.reader == NotReceiving && Count(s.ring) > HEADER
    requires Decode(NextLength(s.ring)) <= max
    ensures Leads(c, s, run, e) && Safe(c, e) && Fit(c, e) && AllSized(run)
    ensures var (n, length) := (Count(s.ring) - HEADER, NextLength(s.ring));
      && e.reader == Fetching(max, n, false, Min(n, Decode(length)), [])
      && e.ring.accepted == s.ring.accepted && e.ring.delivered == s.ring.delivered + length
      && e == s.(ring := e.ring, reader := e.reader)
  {
    var s1;
    run, s1 := LengthFetched(c, s, max);
    e := LengthPassed(c, s1);
    Last(c, s, run, s1, ReaderStep);
    run := run + [ReaderStep];
  }

  // It reads them, and delivers them.
  lemma {:induction false} MessageTaken(c: Config, s: State) returns (run: seq<Action>, e: State)
    requires Safe(c, s) && Fit(c, s) && s.reader.Fetching? && !s.reader.header && s.reader.got == []
    ensures Leads(c, s, run, e) && Safe(c, e) && AllSized(run) && e.sent == s.sent && !e.reader.Restoring?
    ensures var got := s.ring.accepted[|s.ring.delivered|..|s.ring.delivered| + s.reader.want];
      && e.received == s.received + [got]
      && e.ring.accepted == s.ring.accepted && e.ring.delivered == s.ring.delivered + got
  {
    var s1;
    run, s1 := Fetched(c, s, s.reader.want);
    StepKept(c, s1, ReaderStep);
    e := ReaderNext(c, s1);
    Last(c, s, run, s1, ReaderStep);
    run := run + [ReaderStep];
  }

  /** A receive on its own: it takes what it makes of the bytes that are stored. */
  lemma {:induction false} Taken(c: Config, s: State, max: nat) returns (run: seq<Action>, e: State, got: Bytes)
    requires c.message && Safe(c, s) && Fit(c, s) && s.reader == NotReceiving && Count(s.ring) > HEADER
    requires Decode(NextLength(s.ring)) <= max
    ensures Leads(c, s, run, e) && Safe(c, e) && AllSized(run) && !e.reader.Restoring?
    ensures e.sent == s.sent && e.received == s.received + [got]
    ensures |got| == Min(Count(s.ring) - HEADER, Decode(NextLength(s.ring)))
    ensures got == s.ring.accepted[|s.ring.delivered| + HEADER..|s.ring.delivered| + HEADER + |got|]
    ensures e.ring.accepted == s.ring.accepted && e.ring.delivered == s.ring.delivered + NextLength(s.ring) + got
  {
    var first, s1 := LengthTaken(c, s, max);
    var second;
    second, e := MessageTaken(c, s1);
    run := first + second;
    RunAppend(c, s, first, second);
    got := s.ring.accepted[|s1.ring.delivered|..|s1.ring.delivered| + s1.reader.want];
  }

  /** A receive for which the message is too large: its length is read and put back. */
  lemma {:induction false} TooLarge(c: Config, s: State, max: nat) returns (run: seq<Action>, e: State)
    requires c.message && Safe(c, s) && Fit(c, s) && s.reader == NotReceiving && Count(s.ring) > HEADER
    requires Decode(NextLength(s.ring)) > max
    ensures Leads(c, s, run, e) && Safe(c, e) && Fit(c, e) && AllSized(run)
    ensures e.reader == Restoring(s.ring.tail) && Settled(e.ring, e.reader) == s.ring && e.writer == s.writer
    ensures e.sent == s.sent && e.received == s.received
  {
    var s1;
    run, s1 := LengthFetched(c, s, max);
    StepKept(c, s1, ReaderStep);
    e := ReaderNext(c, s1);
    Last(c, s, run, s1, ReaderStep);
    run := run + [ReaderStep];
  }
}
