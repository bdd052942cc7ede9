/** stream_buffer.c as one writer and one reader whose steps interleave in any order.

    Each step is one critical section, one read of an index of the other side, one byte of a copy, or
    the publication of one index. Either side may be a task or an interrupt service routine. */
module StreamProtocol {
  import opened Basics
  import opened StreamIndex

  // xLength, xTriggerLevelBytes and the message buffer flag.
  datatype Config = Config(length: nat, trigger: nat, message: bool)

  /** Where xStreamBufferSend() stands.

      Checking: before the critical section that reads the space and decides whether to wait.
      Asleep: in xTaskNotifyWait(). Awake: before xTaskWaitingToSend is cleared. Committed: past the
      wait, before the space is read once more if it was zero. Copying: in prvWriteBytesToBuffer() for the first of
      `parts`. Counting: before the trigger level is compared. Notifying: before sbSEND_COMPLETED(). */
  datatype Writer =
    | NotSending
    | Checking(data: Bytes)
    | Asleep(data: Bytes, space: int)
    | Awake(data: Bytes, space: int)
    | Committed(data: Bytes, space: int)
    | Copying(message: Bytes, parts: seq<Bytes>, done: nat)
    | Counting
    | Notifying

  /** Where xStreamBufferReceive() stands; `max` is the size of the caller's buffer.

      Fetching: in prvReadBytesFromBuffer(), with `got` of `want` bytes copied and `room` for a message;
      `header` while these are the length of a message. Restoring: the tail stands behind that length and is about to be
      put back, because the message does not fit or only its length was asked for. */
  datatype Reader =
    | NotReceiving
    | Looking(max: nat)
    | Sleeping(max: nat)
    | Wakened(max: nat)
    | Recounting(max: nat)
    | Fetching(room: int, available: int, header: bool, want: nat, got: Bytes)
    | Restoring(original: nat)
    | Completing

  // pucBuffer, xHead and xTail, and the bytes published by the writer and taken by the reader so far.
  datatype Ring = Ring(buffer: Bytes, head: nat, tail: nat, accepted: Bytes, delivered: Bytes)

  /** The ring, the two handshakes, both sides, and the chunks - messages, in a message buffer - that
      were sent and received. */
  datatype State = State(
    ring: Ring,
    waitingToReceive: bool,
    waitingToSend: bool,
    readerNotified: bool,
    writerNotified: bool,
    writer: Writer,
    reader: Reader,
    sent: seq<Bytes>,
    received: seq<Bytes>)

  datatype Action =
    | Send(data: Bytes, wait: bool)
    | WriterStep
    | SendExpires
    | Receive(max: nat, wait: bool)
    | AskLength
    | ReaderStep

  // xStreamBufferNextMessageLengthBytes() reads a length as a receive would into a buffer that not even
  // an empty message fits.
  const NOTHING := -1

  // A number in `k` bytes, the low byte first.
  function Digits(n: nat, k: nat): (b: Bytes)
    ensures |b| == k
  {
    if k == 0 then [] else [n % 256] + Digits(n / 256, k - 1)
  }

  function Value(b: Bytes): nat {
    if b == [] then 0 else b[0] + 256 * Value(b[1..])
  }

  // The length of a message as it is stored.
  function Encode(n: nat): Bytes { Digits(n, HEADER) }

  function Decode(b: Bytes): nat { Value(b) }

  function Header(c: Config): nat { if c.message then HEADER else 0 }

  function Required(c: Config, data: Bytes): nat { |data| + Header(c) }

  function Space(c: Config, r: Ring): int { SpacesAvailable(c.length, r.head, r.tail) }

  function Stored(c: Config, r: Ring): int { BytesInBuffer(c.length, r.head, r.tail) }

  // prvWriteMessageToBuffer(): what is going to be written, given the space that was read.
  function Writing(c: Config, data: Bytes, space: int): Writer {
    if space <= 0 then NotSending
    else if !c.message then Copying(data[..Min(|data|, space)], [data[..Min(|data|, space)]], 0)
    else if space >= |data| + HEADER then Copying(data, [Encode(|data|), data], 0)
    else NotSending
  }

  // prvReadMessageFromBuffer(), given the number of bytes that was read.
  function Reading(c: Config, max: nat, available: int): Reader {
    if available <= Header(c) then NotReceiving
    else if c.message then Fetching(max, available, true, HEADER, [])
    else Fetching(max, available, false, Min(available, max), [])
  }

  // Indices are inside the ring, and no copy is longer than it.
  predicate RingFits(c: Config, r: Ring) {
    |r.buffer| == c.length && r.head < c.length && r.tail < c.length
  }

  predicate WriterFits(c: Config, w: Writer) {
    w.Copying? ==> w.parts != [] && w.done <= |w.parts[0]| <= c.length
  }

  predicate ReaderFits(c: Config, r: Reader) {
    && (r.Fetching? ==> |r.got| <= r.want <= c.length && (r.header ==> r.want == HEADER))
    && (r.Restoring? ==> r.original < c.length)
  }

  predicate Fit(c: Config, s: State) {
    RingFits(c, s.ring) && WriterFits(c, s.writer) && ReaderFits(c, s.reader)
  }

  // One byte of prvWriteBytesToBuffer(), and the publication of the new head.
  function Put(c: Config, r: Ring, part: Bytes, done: nat): Ring
    requires RingFits(c, r) && done < |part| <= c.length
  {
    r.(buffer := r.buffer[Advance(c.length, r.head, done) := part[done]])
  }

  function PublishHead(c: Config, r: Ring, part: Bytes): Ring {
    r.(head := Advance(c.length, r.head, |part|), accepted := r.accepted + part)
  }

  // One byte of prvReadBytesFromBuffer(), and the publication of the new tail.
  function Get(c: Config, r: Ring, done: nat): Byte
    requires RingFits(c, r) && done <= c.length
  {
    r.buffer[Advance(c.length, r.tail, done)]
  }

  function PublishTail(c: Config, r: Ring, got: Bytes): Ring {
    r.(tail := Advance(c.length, r.tail, |got|), delivered := r.delivered + got)
  }

  // The tail is put back before the length of a message.
  function PutBack(r: Ring, original: nat): Ring { r.(tail := original) }

  // The ring as it is once the reader has put back its tail.
  function Settled(r: Ring, reader: Reader): Ring {
    if reader.Restoring? then PutBack(r, reader.original) else r
  }

  predicate Enabled(c: Config, s: State, a: Action) {
    match a
    case Send(_, _) => s.writer.NotSending?
    case WriterStep => !s.writer.NotSending?
    case SendExpires => s.writer.Awake?
    case Receive(_, _) => s.reader.NotReceiving?
    case AskLength => s.reader.NotReceiving? && c.message
    case ReaderStep => !s.reader.NotReceiving?
  }

  // ---- a step of the writer: where it goes, what it does to the ring, and the handshake ----

  function WriterGoes(c: Config, r: Ring, w: Writer): Writer
    requires WriterFits(c, w)
  {
    match w
    case NotSending => w
    case Checking(data) =>
      var space := Space(c, r);
      if space < Required(c, data) then Asleep(data, space) else Committed(data, space)
    // The wait ends with a notification, or when its time is up.
    case Asleep(data, space) => Awake(data, space)
    case Awake(data, space) => Checking(data)
    case Committed(data, space) => Writing(c, data, if space == 0 then Space(c, r) else space)
    case Copying(message, parts, done) =>
      if done < |parts[0]| then Copying(message, parts, done + 1)
      else if |parts| > 1 then Copying(message, parts[1..], 0)
      else if message == [] then NotSending
      else Counting
    case Counting => if Stored(c, r) >= c.trigger then Notifying else NotSending
    case Notifying => NotSending
  }

  function WriterRing(c: Config, r: Ring, w: Writer): Ring
    requires RingFits(c, r) && WriterFits(c, w)
  {
    if !w.Copying? then r
    else if w.done < |w.parts[0]| then Put(c, r, w.parts[0], w.done)
    else PublishHead(c, r, w.parts[0])
  }

  // A chunk is complete with this step.
  predicate WriterSends(w: Writer) {
    w.Copying? && |w.parts| == 1 && w.done == |w.parts[0]|
  }

  function WriterNext(c: Config, s: State): State
    requires Fit(c, s)
  {
    var (w, w') := (s.writer, WriterGoes(c, s.ring, s.writer));
    s.(ring := WriterRing(c, s.ring, w), writer := w',
       sent := if WriterSends(w) then s.sent + [w.message] else s.sent,
       waitingToSend := w'.Asleep? || (s.waitingToSend && !w.Awake?),
       writerNotified := s.writerNotified && !w'.Asleep? && !w.Asleep?,
       readerNotified := s.readerNotified || (w.Notifying? && s.waitingToReceive),
       waitingToReceive := s.waitingToReceive && !w.Notifying?)
  }

  // ---- a step of the reader, in the same way ----

  // Whether the message whose length was read is going to be taken.
  predicate Takes(r: Reader)
    requires r.Fetching?
  {
    !r.header || (Decode(r.got) <= r.room && r.available >= HEADER)
  }

  function ReaderGoes(c: Config, r: Ring, reader: Reader): Reader
    requires RingFits(c, r) && ReaderFits(c, reader)
  {
    match reader
    case NotReceiving => reader
    case Looking(max) =>
      if Stored(c, r) <= Header(c) then Sleeping(max) else Reading(c, max, Stored(c, r))
    case Sleeping(max) => Wakened(max)
    case Wakened(max) => Recounting(max)
    case Recounting(max) => Reading(c, max, Stored(c, r))
    case Fetching(room, available, header, want, got) =>
      if |got| < want then reader.(got := got + [Get(c, r, |got|)])
      else if !Takes(reader) then Restoring(r.tail)
      else if header then
        Fetching(room, available - HEADER, false, Min(available - HEADER, Decode(got)), [])
      else if got == [] then NotReceiving
      else Completing
    case Restoring(_) => NotReceiving
    case Completing => NotReceiving
  }

  // What is put back does not count as delivered.
  function ReaderRing(c: Config, r: Ring, reader: Reader): Ring {
    if reader.Restoring? then PutBack(r, reader.original)
    else if !reader.Fetching? || |reader.got| < reader.want then r
    else if Takes(reader) then PublishTail(c, r, reader.got)
    else r.(tail := Advance(c.length, r.tail, |reader.got|))
  }

  predicate ReaderReceives(reader: Reader) {
    reader.Fetching? && |reader.got| >= reader.want && !reader.header
  }

  function ReaderNext(c: Config, s: State): State
    requires Fit(c, s)
  {
    var (r, r') := (s.reader, ReaderGoes(c, s.ring, s.reader));
    s.(ring := ReaderRing(c, s.ring, r), reader := r',
       received := if ReaderReceives(r) then s.received + [r.got] else s.received,
       waitingToReceive := r'.Sleeping? || (s.waitingToReceive && !r.Wakened?),
       readerNotified := s.readerNotified && !r'.Sleeping? && !r.Sleeping?,
       writerNotified := s.writerNotified || (r.Completing? && s.waitingToSend),
       waitingToSend := s.waitingToSend && !r.Completing?)
  }

  function Next(c: Config, s: State, a: Action): State
    requires Fit(c, s)
  {
    match a
    case Send(data, wait) => s.(writer := if wait then Checking(data) else Committed(data, 0))
    case WriterStep => WriterNext(c, s)
    // The time of the whole call is up: the last space that was read is kept.
    case SendExpires =>
      if s.writer.Awake? then
        s.(writer := Committed(s.writer.data, s.writer.space), waitingToSend := false)
      else s
    case Receive(max, wait) => s.(reader := if wait then Looking(max) else Recounting(max))
    case AskLength =>
      var available := Stored(c, s.ring);
      s.(reader := if available <= HEADER then NotReceiving else Fetching(NOTHING, available, true, HEADER, []))
    case ReaderStep => ReaderNext(c, s)
  }

  predicate Initial(c: Config, s: State) {
    && 1 < c.length && 0 < c.trigger && (c.message ==> c.trigger == 1)
    && |s.ring.buffer| == c.length && s.ring.head == s.ring.tail == 0
    && s.ring.accepted == s.ring.delivered == [] && s.sent == s.received == []
    && !s.waitingToReceive && !s.waitingToSend
    && s.writer == NotSending && s.reader == NotReceiving
  }
}
