/** The sleep and notify handshake of stream_buffer.c: nobody sleeps on a condition that holds. */
module StreamWakeups {
  import opened StreamIndex
  import opened StreamProtocol
  import opened StreamSafety
  import opened StreamFraming

  // Between the publication of a head and the notification that belongs to it.
  predicate WriterBusy(c: Config, w: Writer) {
    w.Counting? || w.Notifying? || (c.message && w.Copying? && |w.parts| == 1)
  }

  // Between the publication of a tail and the notification that belongs to it.
  predicate ReaderBusy(c: Config, r: Reader) {
    r.Completing? || (c.message && r.Fetching? && !r.header)
  }

  // A reader that sleeps without a notification will get one, or has nothing to read.
  predicate ReaderServed(c: Config, s: State) {
    s.reader.Sleeping? && !s.readerNotified ==>
      s.waitingToReceive && (WriterBusy(c, s.writer) || Count(s.ring) < c.trigger)
  }

  // A sender that sleeps without a notification will get one, or has no room.
  predicate WriterServed(c: Config, s: State) {
    s.writer.Asleep? && !s.writerNotified ==>
      s.waitingToSend && (ReaderBusy(c, s.reader) || Free(c, s.ring) < Required(c, s.writer.data))
  }

  predicate NotEmpty(w: Writer) {
    match w
    case Checking(data) => data != []
    case Asleep(data, _) => data != []
    case Awake(data, _) => data != []
    case Committed(data, _) => data != []
    case Copying(message, _, _) => message != []
    case _ => true
  }

  // Messages are not empty.
  ghost predicate Substantial(s: State) {
    NotEmpty(s.writer) && forall i :: 0 <= i < |s.sent| ==> s.sent[i] != []
  }

  // In a stream buffer there is one part to a copy.
  predicate Plain(s: State) {
    (s.writer.Copying? ==> s.writer.parts == [s.writer.message]) && (s.reader.Fetching? ==> !s.reader.header)
  }

  ghost predicate Steady(c: Config, s: State) {
    && Safe(c, s) && Fit(c, s) && 0 < c.trigger && (c.message ==> c.trigger == 1)
    && (if c.message then Framed(c, s) && Substantial(s) else Plain(s))
    && ReaderServed(c, s) && WriterServed(c, s)
  }

  // In a message buffer every message has at least one byte.
  predicate Sendable(c: Config, a: Action) { a.Send? && c.message ==> 0 < |a.data| < MAX_LENGTH }

  // No more than a length to read means that there is nothing, or the writer is at it.
  lemma {:induction false} NoMessage(c: Config, s: State)
    requires Framed(c, s) && Substantial(s) && !s.reader.Fetching? && Count(s.ring) <= HEADER
    ensures Count(s.ring) == 0 || WriterBusy(c, s.writer)
  {
    var k := |s.received|;
    assert s.received == s.sent[..k];
    assert k == |s.sent| ==> s.received == s.sent;
    if k < |s.sent| {
      NextFrame(s.sent, k, s.ring.accepted);
    }
  }

  lemma {:induction false} NotEmptyKept(c: Config, s: State)
    requires c.message && Fit(c, s) && NotEmpty(s.writer)
    ensures NotEmpty(WriterNext(c, s).writer)
    ensures WriterNext(c, s).sent == s.sent
      || (s.writer.Copying? && WriterNext(c, s).sent == s.sent + [s.writer.message])
  {
  }

  // ---- a step of one side, and what it means for the sleeper on either side ----

  lemma {:induction false} ReaderFallsAsleep(c: Config, s: State)
    requires Steady(c, s)
    ensures ReaderServed(c, ReaderNext(c, s))
  {
    SpaceSeen(c, s);
    if s.reader.Looking? && Count(s.ring) <= Header(c) {
      if c.message {
        NoMessage(c, s);
      }
    }
  }

  lemma {:induction false} WriterFallsAsleep(c: Config, s: State)
    requires Steady(c, s)
    ensures WriterServed(c, WriterNext(c, s))
  {
    SpaceSeen(c, s);
  }

  lemma {:induction false} ReaderServesWriter(c: Config, s: State)
    requires Steady(c, s) && Legal(c, s, ReaderStep)
    ensures WriterServed(c, ReaderNext(c, s))
  {
    SpaceSeen(c, s);
  }

  lemma {:induction false} StepSubstantial(c: Config, s: State, a: Action)
    requires c.message && Fit(c, s) && Substantial(s) && Sendable(c, a)
    ensures Substantial(Next(c, s, a))
  {
    match a
    case WriterStep => NotEmptyKept(c, s);
    case ReaderStep => SentUnmoved(c, s);
    case _ =>
  }

  lemma {:induction false} SentUnmoved(c: Config, s: State)
    requires Fit(c, s)
    ensures ReaderNext(c, s).sent == s.sent && ReaderNext(c, s).writer == s.writer
  {
  }

  lemma {:induction false} StepSteady(c: Config, s: State, a: Action)
    requires Steady(c, s) && Legal(c, s, a) && Sendable(c, a)
    ensures Steady(c, Next(c, s, a))
  {
    StepKept(c, s, a);
    if c.message {
      StepFramed(c, s, a);
      StepSubstantial(c, s, a);
    }
    match a
    case WriterStep =>
      WriterFallsAsleep(c, s);
    case ReaderStep =>
      ReaderFallsAsleep(c, s);
      ReaderServesWriter(c, s);
    case _ =>
  }

  lemma {:induction false} RunSteady(c: Config, s: State, run: seq<Action>)
    requires Steady(c, s) && LegalRun(c, s, run) && forall i :: 0 <= i < |run| ==> Sendable(c, run[i])
    ensures Steady(c, Exec(c, s, run))
    decreases |run|
  {
    if run != [] {
      StepSteady(c, s, run[0]);
      RunSteady(c, Next(c, s, run[0]), run[1..]);
    }
  }

  /** In every run: a reader asleep without a pending notification, while the writer is not between
      publishing and notifying, has fewer bytes to read than the trigger level; a sender asleep
      without one, while the reader is not between the two, has less room than it needs. */
  lemma {:induction false} NobodyOversleeps(c: Config, s: State, run: seq<Action>)
    requires Initial(c, s) && LegalRun(c, s, run) && forall i :: 0 <= i < |run| ==> Sendable(c, run[i])
    ensures var s' := Exec(c, s, run);
      && (s'.reader.Sleeping? && !s'.readerNotified && !WriterBusy(c, s'.writer) ==>
            Stored(c, s'.ring) < c.trigger)
      && (s'.writer.Asleep? && !s'.writerNotified && !ReaderBusy(c, s'.reader) ==>
            Space(c, Settled(s'.ring, s'.reader)) < Required(c, s'.writer.data))
  {
    RunSteady(c, s, run);
    SpaceSeen(c, Exec(c, s, run));
  }
}
