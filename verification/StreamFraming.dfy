/** Message buffers: the length and the bytes of a message are published one after the other, yet the
    reader only ever takes whole messages, in the order they were sent. */
module StreamFraming {
  import opened Basics
  import opened StreamIndex
  import opened StreamProtocol
  import opened StreamSafety

  const MAX_LENGTH := 0x1_0000_0000

  function Frame(m: Bytes): Bytes { Encode(|m|) + m }

  function Frames(ms: seq<Bytes>): Bytes {
    if ms == [] then [] else Frames(ms[..|ms| - 1]) + Frame(ms[|ms| - 1])
  }

  // The numbers that fit in `k` bytes.
  function Limit(k: nat): nat { if k == 0 then 1 else 256 * Limit(k - 1) }

  lemma {:induction false} DigitsValue(n: nat, k: nat)
    requires n < Limit(k)
    ensures Value(Digits(n, k)) == n
  {
    if k > 0 {
      DigitsValue(n / 256, k - 1);
      assert Digits(n, k)[1..] == Digits(n / 256, k - 1);
    }
  }

  /** The stored length reads back as what it was. */
  lemma {:induction false} EncodeDecode(n: nat)
    requires n < MAX_LENGTH
    ensures Decode(Encode(n)) == n
  {
    assert Limit(2) == 65536 && Limit(3) == 16777216;
    DigitsValue(n, HEADER);
  }

  lemma {:induction false} FramesSnoc(ms: seq<Bytes>, m: Bytes)
    ensures Frames(ms + [m]) == Frames(ms) + Frame(m)
  {
    assert (ms + [m])[..|ms|] == ms;
  }

  lemma {:induction false} FramesPrefix(ms: seq<Bytes>, k: nat)
    requires k <= |ms|
    ensures Frames(ms[..k]) <= Frames(ms)
    decreases |ms| - k
  {
    if k < |ms| {
      assert ms[..k + 1] == ms[..k] + [ms[k]];
      FramesSnoc(ms[..k], ms[k]);
      FramesPrefix(ms, k + 1);
    } else {
      assert ms[..k] == ms;
    }
  }

  // The next frame lies in full behind those before it.
  lemma {:induction false} NextFrame(ms: seq<Bytes>, k: nat, stream: Bytes)
    requires k < |ms| && Frames(ms) <= stream
    ensures var start := |Frames(ms[..k])|;
      && start + HEADER + |ms[k]| <= |stream|
      && stream[start..start + HEADER] == Encode(|ms[k]|)
      && stream[start + HEADER..start + HEADER + |ms[k]|] == ms[k]
      && Frames(ms[..k + 1]) == Frames(ms[..k]) + Encode(|ms[k]|) + ms[k]
  {
    assert ms[..k + 1] == ms[..k] + [ms[k]];
    FramesSnoc(ms[..k], ms[k]);
    FramesPrefix(ms, k + 1);
    var f := Frames(ms[..k]) + Encode(|ms[k]|) + ms[k];
    assert f == Frames(ms[..k]) + Frame(ms[k]);
    assert f <= stream;
    assert f == stream[..|f|];
  }

  predicate MessageFits(w: Writer) {
    match w
    case Checking(data) => |data| < MAX_LENGTH
    case Asleep(data, _) => |data| < MAX_LENGTH
    case Awake(data, _) => |data| < MAX_LENGTH
    case Committed(data, _) => |data| < MAX_LENGTH
    case Copying(message, _, _) => |message| < MAX_LENGTH
    case _ => true
  }

  // The published bytes are the frames of the sent messages, and perhaps the length of the next.
  ghost predicate WriterFramed(accepted: Bytes, sent: seq<Bytes>, w: Writer) {
    if w.Copying? && |w.parts| == 1 then
      w.parts == [w.message] && accepted == Frames(sent) + Encode(|w.message|)
    else
      accepted == Frames(sent) && (w.Copying? ==> w.parts == [Encode(|w.message|), w.message])
  }

  // The bytes taken are the frames of the received messages, and perhaps the length of the next.
  ghost predicate ReaderFramed(delivered: Bytes, sent: seq<Bytes>, received: seq<Bytes>, r: Reader) {
    && received <= sent
    && if r.Fetching? then
         && |received| < |sent|
         && var m := sent[|received|];
         if r.header then delivered == Frames(received) && r.available >= HEADER + |m|
         else delivered == Frames(received) + Encode(|m|) && r.want == |m|
       else delivered == Frames(received) && (r.Restoring? ==> |received| < |sent|)
  }

  ghost predicate Framed(c: Config, s: State) {
    && c.message && Safe(c, s) && Fit(c, s) && MessageFits(s.writer)
    && (forall i :: 0 <= i < |s.sent| ==> |s.sent[i]| < MAX_LENGTH)
    && WriterFramed(s.ring.accepted, s.sent, s.writer)
    && ReaderFramed(s.ring.delivered, s.sent, s.received, s.reader)
  }

  predicate Sized(a: Action) { a.Send? ==> |a.data| < MAX_LENGTH }

  // ---- every step keeps it ----

  // What the writer leaves of the histories, and what it adds to them.
  ghost predicate WriterStepFramed(s: State, s': State) {
    && MessageFits(s'.writer) && WriterFramed(s'.ring.accepted, s'.sent, s'.writer)
    && s.sent <= s'.sent && s'.received == s.received && s'.reader == s.reader
    && s'.ring.delivered == s.ring.delivered
    && (forall i :: 0 <= i < |s'.sent| ==> |s'.sent[i]| < MAX_LENGTH)
  }

  lemma {:induction false} WriterPublishes(c: Config, s: State)
    requires Framed(c, s) && s.writer.Copying? && s.writer.done == |s.writer.parts[0]|
    ensures WriterStepFramed(s, WriterNext(c, s))
  {
    var m := s.writer.message;
    if |s.writer.parts| == 1 {
      FramesSnoc(s.sent, m);
      assert Frames(s.sent) + Encode(|m|) + m == Frames(s.sent) + Frame(m);
    } else {
      assert s.writer.parts[1..] == [m];
    }
  }

  lemma {:induction false} WritingFramed(c: Config, data: Bytes, space: int)
    requires c.message && |data| < MAX_LENGTH
    ensures var w := Writing(c, data, space);
      MessageFits(w) && (w.Copying? ==> |w.parts| == 2 && w.parts == [Encode(|w.message|), w.message])
  {
  }

  // Between two publications the histories stay as they are.
  lemma {:induction false} WriterSilent(c: Config, s: State)
    requires Fit(c, s) && (s.writer.Copying? ==> s.writer.done < |s.writer.parts[0]|)
    ensures var s' := WriterNext(c, s);
      && s'.ring.accepted == s.ring.accepted && s'.ring.delivered == s.ring.delivered
      && s'.sent == s.sent && s'.received == s.received && s'.reader == s.reader
  {
  }

  lemma {:induction false} WriterGoesOn(c: Config, s: State)
    requires c.message && Fit(c, s) && MessageFits(s.writer) && WriterFramed(s.ring.accepted, s.sent, s.writer)
    requires s.writer.Copying? ==> s.writer.done < |s.writer.parts[0]|
    ensures var w := WriterNext(c, s).writer; MessageFits(w) && WriterFramed(s.ring.accepted, s.sent, w)
  {
    match s.writer
    case Committed(data, space) => WritingFramed(c, data, if space == 0 then Space(c, s.ring) else space);
    case Copying(m, parts, done) => assert WriterNext(c, s).writer == Copying(m, parts, done + 1);
    case _ => assert !WriterNext(c, s).writer.Copying?;
  }

  lemma {:induction false} WriterFrames(c: Config, s: State)
    requires Framed(c, s)
    ensures WriterStepFramed(s, WriterNext(c, s))
  {
    if s.writer.Copying? && s.writer.done == |s.writer.parts[0]| {
      WriterPublishes(c, s);
    } else {
      WriterSilent(c, s);
      WriterGoesOn(c, s);
    }
  }

  // More messages sent make no difference to the reader.
  lemma {:induction false} MoreSent(delivered: Bytes, sent: seq<Bytes>, sent': seq<Bytes>, received: seq<Bytes>,
                                    r: Reader)
    requires ReaderFramed(delivered, sent, received, r) && sent <= sent'
    ensures ReaderFramed(delivered, sent', received, r)
  {
  }

  // More than a length to read means that a whole message is there.
  lemma {:induction false} WholeMessage(c: Config, s: State)
    requires Framed(c, s) && !s.reader.Fetching? && Count(s.ring) > HEADER
    ensures |s.received| < |s.sent| && Count(s.ring) >= HEADER + |s.sent[|s.received|]|
  {
    var k := |s.received|;
    assert s.received == s.sent[..k];
    assert k == |s.sent| ==> s.received == s.sent;
    if k < |s.sent| {
      NextFrame(s.sent, k, s.ring.accepted);
    }
  }

  lemma {:induction false} ReaderCounts(c: Config, s: State)
    requires Framed(c, s) && !s.reader.Fetching?
    ensures var s' := ReaderNext(c, s);
      ReaderFramed(s'.ring.delivered, s.sent, s'.received, s'.reader) && s'.sent == s.sent && s'.writer == s.writer
  {
    if !s.reader.Restoring? {
      RingCounts(c, s.ring);
      if Count(s.ring) > HEADER {
        WholeMessage(c, s);
      }
    }
  }

  /** The length that is read is that of the next message, whether the message is to be taken or only
      its length was asked for. */
  lemma {:induction false} LengthRead(c: Config, s: State)
    requires Framed(c, s) && s.reader.Fetching? && |s.reader.got| == s.reader.want && s.reader.header
    ensures s.reader.got == Encode(|s.sent[|s.received|]|) && Decode(s.reader.got) == |s.sent[|s.received|]|
  {
    var k := |s.received|;
    assert s.received == s.sent[..k];
    NextFrame(s.sent, k, s.ring.accepted);
    EncodeDecode(|s.sent[k]|);
  }

  lemma {:induction false} ReaderTakesLength(c: Config, s: State)
    requires Framed(c, s) && s.reader.Fetching? && |s.reader.got| == s.reader.want && s.reader.header
    ensures var s' := ReaderNext(c, s);
      ReaderFramed(s'.ring.delivered, s.sent, s'.received, s'.reader) && s'.sent == s.sent && s'.writer == s.writer
  {
    LengthRead(c, s);
  }

  lemma {:induction false} ReaderTakesMessage(c: Config, s: State)
    requires Framed(c, s) && s.reader.Fetching? && |s.reader.got| == s.reader.want && !s.reader.header
    ensures var s' := ReaderNext(c, s);
      ReaderFramed(s'.ring.delivered, s.sent, s'.received, s'.reader) && s'.sent == s.sent && s'.writer == s.writer
  {
    MessageRead(c, s);
    var k := |s.received|;
    assert s.received + [s.sent[k]] == s.sent[..k + 1];
  }

  // What was fetched behind a length is the message.
  lemma {:induction false} MessageRead(c: Config, s: State)
    requires Framed(c, s) && s.reader.Fetching? && |s.reader.got| == s.reader.want && !s.reader.header
    ensures s.reader.got == s.sent[|s.received|]
    ensures s.ring.delivered + s.reader.got == Frames(s.sent[..|s.received| + 1])
  {
    var k := |s.received|;
    assert s.received == s.sent[..k];
    NextFrame(s.sent, k, s.ring.accepted);
  }

  lemma {:induction false} ReaderFrames(c: Config, s: State)
    requires Framed(c, s)
    ensures var s' := ReaderNext(c, s);
      ReaderFramed(s'.ring.delivered, s.sent, s'.received, s'.reader) && s'.sent == s.sent && s'.writer == s.writer
  {
    if !s.reader.Fetching? {
      ReaderCounts(c, s);
    } else if |s.reader.got| == s.reader.want {
      if s.reader.header {
        ReaderTakesLength(c, s);
      } else {
        ReaderTakesMessage(c, s);
      }
    }
  }

  lemma {:induction false} AskFrames(c: Config, s: State)
    requires Framed(c, s) && Legal(c, s, AskLength)
    ensures ReaderFramed(s.ring.delivered, s.sent, s.received, Next(c, s, AskLength).reader)
  {
    RingCounts(c, s.ring);
    if Count(s.ring) > HEADER {
      WholeMessage(c, s);
    }
  }

  lemma {:induction false} StepFramed(c: Config, s: State, a: Action)
    requires Framed(c, s) && Legal(c, s, a) && Sized(a)
    ensures Framed(c, Next(c, s, a))
  {
    StepKept(c, s, a);
    match a
    case WriterStep =>
      WriterFrames(c, s);
      MoreSent(s.ring.delivered, s.sent, WriterNext(c, s).sent, s.received, s.reader);
    case ReaderStep => ReaderFrames(c, s);
    case AskLength => AskFrames(c, s);
    case _ =>
  }

  lemma {:induction false} RunFramed(c: Config, s: State, run: seq<Action>)
    requires Framed(c, s) && LegalRun(c, s, run) && forall i :: 0 <= i < |run| ==> Sized(run[i])
    ensures Framed(c, Exec(c, s, run))
    decreases |run|
  {
    if run != [] {
      StepFramed(c, s, run[0]);
      RunFramed(c, Next(c, s, run[0]), run[1..]);
    }
  }

  /** In every run of a message buffer the messages received are the first of those sent: each is
      whole, none is lost, and none overtakes another. */
  lemma {:induction false} MessagesInOrder(c: Config, s: State, run: seq<Action>)
    requires c.message && Initial(c, s) && LegalRun(c, s, run) && forall i :: 0 <= i < |run| ==> Sized(run[i])
    ensures Exec(c, s, run).received <= Exec(c, s, run).sent
  {
    RunFramed(c, s, run);
  }
}
