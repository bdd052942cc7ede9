/** Stream buffers under any interleaving of one writer and one reader: the bytes come out as they
    went in, and neither side touches a slot that belongs to the other. */
module StreamSafety {
  import opened Basics
  import opened StreamIndex
  import opened StreamProtocol

  // The writer is about to read the space.
  predicate ReadsSpace(w: Writer) { w.Checking? || (w.Committed? && w.space == 0) }

  /** While the reader holds the tail behind a length that it will put back, the space seems larger by
      that length. A writer that reads it then is misled if its message fits only this larger space. */
  predicate Misled(c: Config, s: State) {
    && s.reader.Restoring? && ReadsSpace(s.writer)
    && Space(c, Settled(s.ring, s.reader)) < Required(c, s.writer.data) <= Space(c, s.ring)
  }

  predicate Legal(c: Config, s: State, a: Action) {
    Enabled(c, s, a) && (a.WriterStep? ==> !Misled(c, s))
  }

  function Count(r: Ring): int { |r.accepted| - |r.delivered| }

  function Free(c: Config, r: Ring): int { c.length - 1 - Count(r) }

  // The indices and the slots between them agree with the histories.
  ghost predicate RingSafe(c: Config, r: Ring) {
    && RingFits(c, r) && 1 < c.length
    && 0 <= Count(r) < c.length && r.head == Advance(c.length, r.tail, Count(r))
    && r.delivered == r.accepted[..|r.delivered|]
    && forall d: nat :: d < Count(r) ==> r.buffer[Advance(c.length, r.tail, d)] == r.accepted[|r.delivered| + d]
  }

  // The space that was read is still there; or, in a message buffer, as much of it as the message needs.
  predicate SpaceSafe(c: Config, free: int, data: Bytes, space: int) {
    if c.message then Required(c, data) <= space ==> Required(c, data) <= free else space <= free
  }

  // What the writer found, or is going to write, is there.
  predicate Modest(c: Config, free: int, w: Writer) {
    match w
    case Asleep(data, space) => SpaceSafe(c, free, data, space)
    case Awake(data, space) => SpaceSafe(c, free, data, space)
    case Committed(data, space) => SpaceSafe(c, free, data, space)
    case Copying(_, parts, _) =>
      0 < |parts| <= 2 && |parts[0]| + (if |parts| == 2 then |parts[1]| else 0) <= free
    case _ => true
  }

  // And what has been copied is in the slots after the head.
  ghost predicate WriterSafe(c: Config, r: Ring, w: Writer)
    requires RingSafe(c, r)
  {
    && Modest(c, Free(c, r), w)
    && (w.Copying? ==>
          && w.done <= |w.parts[0]|
          && forall j: nat :: j < w.done ==> r.buffer[Advance(c.length, r.head, j)] == w.parts[0][j])
  }

  // The bytes that were counted are still there, and what has been copied is what was written.
  ghost predicate ReaderSafe(c: Config, r: Ring, reader: Reader)
    requires RingSafe(c, r)
  {
    match reader
    case Fetching(_, available, header, want, got) =>
      && |got| <= want <= available <= Count(r) && (header ==> c.message && want == HEADER)
      && got == r.accepted[|r.delivered|..|r.delivered| + |got|]
    case Restoring(_) => c.message && HEADER <= Count(r)
    case _ => true
  }

  ghost predicate Safe(c: Config, s: State) {
    var r := Settled(s.ring, s.reader);
    && RingSafe(c, r) && WriterSafe(c, r, s.writer) && ReaderSafe(c, r, s.reader)
    && (s.reader.Restoring? ==> s.ring.tail == Advance(c.length, r.tail, HEADER))
  }

  lemma {:induction false} RingCounts(c: Config, r: Ring)
    requires RingSafe(c, r)
    ensures Space(c, r) == Free(c, r) >= 0 && Stored(c, r) == Count(r)
  {
  }

  // The space that is read: too large by a length while the tail stands behind one that is put back.
  lemma {:induction false} SpaceSeen(c: Config, s: State)
    requires Safe(c, s)
    ensures var r := Settled(s.ring, s.reader);
      && Space(c, r) == Free(c, r) && Stored(c, r) == Count(r)
      && Space(c, s.ring) == Free(c, r) + if s.reader.Restoring? then HEADER else 0
  {
    var r := Settled(s.ring, s.reader);
    RingCounts(c, r);
    if s.reader.Restoring? {
      AdvanceTwice(c.length, r.tail, HEADER, Count(r) - HEADER);
    }
  }

  // ---- the two sides keep to their slots ----

  /** The writer never writes to a slot that holds an unread byte, or one it has just filled. */
  lemma {:induction false} WriterKeepsOff(c: Config, r: Ring, w: Writer, d: nat)
    requires RingSafe(c, r) && WriterSafe(c, r, w) && w.Copying? && w.done < |w.parts[0]|
    requires d < Count(r) + w.done
    ensures Advance(c.length, r.head, w.done) != Advance(c.length, r.tail, d)
  {
    AdvanceTwice(c.length, r.tail, Count(r), w.done);
    AdvanceTwice(c.length, r.tail, d, Count(r) + w.done - d);
  }

  /** The reader only reads slots that hold published bytes, and so reads these bytes. */
  lemma {:induction false} ReaderKeepsOff(c: Config, r: Ring, reader: Reader)
    requires RingSafe(c, r) && ReaderSafe(c, r, reader) && reader.Fetching? && |reader.got| < reader.want
    ensures |r.delivered| + |reader.got| < |r.accepted|
    ensures Get(c, r, |reader.got|) == r.accepted[|r.delivered| + |reader.got|]
  {
  }

  // ---- every step keeps it ----

  lemma {:induction false} PutKept(c: Config, r: Ring, w: Writer)
    requires RingSafe(c, r) && WriterSafe(c, r, w) && w.Copying? && w.done < |w.parts[0]|
    ensures RingSafe(c, Put(c, r, w.parts[0], w.done))
    ensures WriterSafe(c, Put(c, r, w.parts[0], w.done), w.(done := w.done + 1))
  {
    var r' := Put(c, r, w.parts[0], w.done);
    forall d: nat | d < Count(r)
      ensures r'.buffer[Advance(c.length, r.tail, d)] == r.accepted[|r.delivered| + d]
    {
      WriterKeepsOff(c, r, w, d);
    }
    forall j: nat | j < w.done
      ensures r'.buffer[Advance(c.length, r.head, j)] == w.parts[0][j]
    {
      AdvanceTwice(c.length, r.tail, Count(r), j);
      WriterKeepsOff(c, r, w, Count(r) + j);
    }
  }

  lemma {:induction false} PublishHeadKept(c: Config, r: Ring, w: Writer)
    requires RingSafe(c, r) && WriterSafe(c, r, w) && w.Copying? && w.done == |w.parts[0]|
    ensures RingSafe(c, PublishHead(c, r, w.parts[0]))
    ensures Free(c, PublishHead(c, r, w.parts[0])) == Free(c, r) - |w.parts[0]|
  {
    var r', part := PublishHead(c, r, w.parts[0]), w.parts[0];
    AdvanceTwice(c.length, r.tail, Count(r), |part|);
    forall d: nat | d < Count(r')
      ensures r'.buffer[Advance(c.length, r.tail, d)] == r'.accepted[|r.delivered| + d]
    {
      if d >= Count(r) {
        AdvanceTwice(c.length, r.tail, Count(r), d - Count(r));
      }
    }
    assert r'.delivered == r'.accepted[..|r.delivered|];
  }

  lemma {:induction false} PublishTailKept(c: Config, r: Ring, reader: Reader)
    requires RingSafe(c, r) && ReaderSafe(c, r, reader) && reader.Fetching? && |reader.got| == reader.want
    ensures RingSafe(c, PublishTail(c, r, reader.got))
    ensures Count(PublishTail(c, r, reader.got)) == Count(r) - |reader.got|
  {
    var r', n := PublishTail(c, r, reader.got), |reader.got|;
    AdvanceTwice(c.length, r.tail, n, Count(r) - n);
    forall d: nat | d < Count(r')
      ensures r'.buffer[Advance(c.length, r'.tail, d)] == r'.accepted[|r'.delivered| + d]
    {
      AdvanceTwice(c.length, r.tail, n, d);
    }
    assert r'.delivered == r'.accepted[..|r'.delivered|];
  }

  lemma {:induction false} WriterMoves(c: Config, s: State)
    requires Safe(c, s) && Fit(c, s) && !s.writer.Copying? && !Misled(c, s)
    ensures var s' := WriterNext(c, s);
      s'.ring == s.ring && s'.reader == s.reader && WriterSafe(c, Settled(s.ring, s.reader), s'.writer)
  {
    SpaceSeen(c, s);
  }

  lemma {:induction false} WriterCopies(c: Config, s: State)
    requires Safe(c, s) && Fit(c, s) && s.writer.Copying?
    ensures var s' := WriterNext(c, s);
      var (r, r') := (Settled(s.ring, s.reader), Settled(s'.ring, s'.reader));
      && RingSafe(c, r') && WriterSafe(c, r', s'.writer) && s'.reader == s.reader
      && s'.ring.tail == s.ring.tail && r'.delivered == r.delivered && r.accepted <= r'.accepted
  {
    var r, w := Settled(s.ring, s.reader), s.writer;
    if w.done < |w.parts[0]| {
      PutKept(c, r, w);
    } else {
      PublishHeadKept(c, r, w);
    }
  }

  lemma {:induction false} WriterKept(c: Config, s: State)
    requires Safe(c, s) && Fit(c, s) && !Misled(c, s)
    ensures Safe(c, WriterNext(c, s))
  {
    if s.writer.Copying? {
      WriterCopies(c, s);
    } else {
      WriterMoves(c, s);
    }
  }

  lemma {:induction false} ReaderFetches(c: Config, s: State)
    requires RingSafe(c, s.ring) && ReaderSafe(c, s.ring, s.reader) && Fit(c, s)
    requires s.reader.Fetching? && |s.reader.got| < s.reader.want
    ensures var s' := ReaderNext(c, s);
      s'.ring == s.ring && s'.writer == s.writer && ReaderSafe(c, s.ring, s'.reader)
  {
    ReaderKeepsOff(c, s.ring, s.reader);
  }

  // The reader takes what it has copied; or it is about to put back a length.
  lemma {:induction false} ReaderTakes(c: Config, s: State)
    requires RingSafe(c, s.ring) && ReaderSafe(c, s.ring, s.reader) && Fit(c, s)
    requires s.reader.Fetching? && |s.reader.got| == s.reader.want
    ensures var s' := ReaderNext(c, s);
      var r' := Settled(s'.ring, s'.reader);
      && RingSafe(c, r') && ReaderSafe(c, r', s'.reader) && s'.writer == s.writer
      && r'.buffer == s.ring.buffer && r'.head == s.ring.head && Free(c, r') >= Free(c, s.ring)
      && (s'.reader.Restoring? ==> r' == s.ring && s'.ring.tail == Advance(c.length, r'.tail, HEADER))
  {
    PublishTailKept(c, s.ring, s.reader);
  }

  lemma {:induction false} ReaderKept(c: Config, s: State)
    requires Safe(c, s) && Fit(c, s)
    ensures Safe(c, ReaderNext(c, s))
  {
    if s.reader.Fetching? && |s.reader.got| < s.reader.want {
      ReaderFetches(c, s);
    } else if s.reader.Fetching? {
      ReaderTakes(c, s);
    }
  }

  // The beginning of a call, and the end of its time.
  lemma {:induction false} CallKept(c: Config, s: State, a: Action)
    requires Safe(c, s) && Fit(c, s) && Legal(c, s, a) && !a.WriterStep? && !a.ReaderStep?
    ensures Safe(c, Next(c, s, a))
  {
    match a
    case AskLength => RingCounts(c, s.ring);
    case _ =>
  }

  lemma {:induction false} StepKept(c: Config, s: State, a: Action)
    requires Safe(c, s) && Fit(c, s) && Legal(c, s, a)
    ensures Safe(c, Next(c, s, a)) && Fit(c, Next(c, s, a))
  {
    if a.WriterStep? {
      WriterKept(c, s);
    } else if a.ReaderStep? {
      ReaderKept(c, s);
    } else {
      CallKept(c, s, a);
    }
  }

  // ---- whole runs ----

  ghost predicate LegalRun(c: Config, s: State, run: seq<Action>)
    decreases |run|
  {
    run == [] || (Fit(c, s) && Legal(c, s, run[0]) && LegalRun(c, Next(c, s, run[0]), run[1..]))
  }

  ghost function Exec(c: Config, s: State, run: seq<Action>): State
    requires LegalRun(c, s, run)
    decreases |run|
  {
    if run == [] then s else Exec(c, Next(c, s, run[0]), run[1..])
  }

  lemma {:induction false} RunKept(c: Config, s: State, run: seq<Action>)
    requires Safe(c, s) && LegalRun(c, s, run)
    ensures Safe(c, Exec(c, s, run))
    decreases |run|
  {
    if run != [] {
      StepKept(c, s, run[0]);
      RunKept(c, Next(c, s, run[0]), run[1..]);
    }
  }

  /** In every run, whatever the interleaving, the bytes that were delivered are the first of those
      that were accepted, no more are under way than the ring can hold, and both sides keep to their
      slots. The indices tell how many they are, except while the reader is about to put back a
      length. */
  lemma {:induction false} DeliveredInOrder(c: Config, s: State, run: seq<Action>)
    requires Initial(c, s) && LegalRun(c, s, run)
    ensures var s' := Exec(c, s, run);
      var r := Settled(s'.ring, s'.reader);
      && r.delivered <= r.accepted
      && Stored(c, r) == |r.accepted| - |r.delivered| <= c.length - 1
      && Stored(c, r) + Space(c, r) == c.length - 1
      && Safe(c, s')
  {
    RunKept(c, s, run);
    var s' := Exec(c, s, run);
    RingCounts(c, Settled(s'.ring, s'.reader));
  }

  /** The space a sender has read, even the one it carries out of a wait that timed out, is a lower
      bound of the space there is; in a message buffer it is one, or is too little for the message. */
  lemma {:induction false} SpaceIsLowerBound(c: Config, s: State, run: seq<Action>)
    requires Initial(c, s) && LegalRun(c, s, run)
    ensures var s' := Exec(c, s, run);
      var (w, space) := (s'.writer, Space(c, Settled(s'.ring, s'.reader)));
      && (w.Awake? || w.Committed? ==> if c.message then w.space < Required(c, w.data) || Required(c, w.data) <= space
                                        else w.space <= space)
      && (s'.reader.Fetching? ==> s'.reader.available <= Stored(c, s'.ring))
  {
    RunKept(c, s, run);
    var s' := Exec(c, s, run);
    RingCounts(c, Settled(s'.ring, s'.reader));
  }

  // ---- runs in which no length is put back ----

  // Every receive has room for the next message, and lengths are not asked for.
  predicate Roomy(s: State, a: Action) {
    && !a.AskLength?
    && (a.ReaderStep? && s.reader.Fetching? && s.reader.header && |s.reader.got| == s.reader.want ==>
          Decode(s.reader.got) <= s.reader.room)
  }

  ghost predicate RoomyRun(c: Config, s: State, run: seq<Action>)
    decreases |run|
  {
    run == [] || (Fit(c, s) && Enabled(c, s, run[0]) && Roomy(s, run[0]) && RoomyRun(c, Next(c, s, run[0]), run[1..]))
  }

  ghost predicate Exact(c: Config, s: State) {
    && !s.reader.Restoring?
    && (s.writer.Asleep? || s.writer.Awake? || s.writer.Committed? ==> s.writer.space <= Free(c, s.ring))
  }

  lemma {:induction false} ExactKept(c: Config, s: State, a: Action)
    requires Safe(c, s) && Fit(c, s) && Exact(c, s) && Enabled(c, s, a) && Roomy(s, a)
    ensures Legal(c, s, a) && Exact(c, Next(c, s, a))
  {
    match a
    case WriterStep => WriterExact(c, s);
    case ReaderStep => ReaderExact(c, s);
    case _ =>
  }

  lemma {:induction false} WriterExact(c: Config, s: State)
    requires Safe(c, s) && Fit(c, s) && Exact(c, s)
    ensures Exact(c, WriterNext(c, s))
  {
    if s.writer.Copying? {
    } else {
      RingCounts(c, s.ring);
    }
  }

  lemma {:induction false} ReaderExact(c: Config, s: State)
    requires Safe(c, s) && Fit(c, s) && Exact(c, s) && Roomy(s, ReaderStep)
    ensures Exact(c, ReaderNext(c, s))
  {
    if !s.reader.Fetching? {
    } else if |s.reader.got| < s.reader.want {
      ReaderFetches(c, s);
    } else {
      ReaderTakes(c, s);
    }
  }

  /** In such runs nobody is misled, and the space a sender has read is a lower bound as it stands. */
  lemma {:induction false} RoomyRuns(c: Config, s: State, run: seq<Action>)
    requires Safe(c, s) && Exact(c, s) && RoomyRun(c, s, run)
    ensures LegalRun(c, s, run)
    ensures Exact(c, Exec(c, s, run)) && Safe(c, Exec(c, s, run))
    decreases |run|
  {
    if run != [] {
      ExactKept(c, s, run[0]);
      StepKept(c, s, run[0]);
      RoomyRuns(c, Next(c, s, run[0]), run[1..]);
    }
  }
}
