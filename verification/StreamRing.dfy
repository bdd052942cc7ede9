/** stream_buffer.c without interleaving: the functions that move bytes in and out of the ring. */
module StreamRing {
  import opened Basics
  import opened StreamIndex
  import opened StreamProtocol
  import opened StreamFraming
  import opened StreamSafety
  import opened StreamRuns

  // The bytes stored in a ring, the oldest first.
  ghost function Unrolled(buffer: Bytes, tail: nat, count: nat): (s: Bytes)
    requires tail < |buffer| && count < |buffer|
    ensures |s| == count
  {
    seq(count, d requires 0 <= d < count => buffer[Advance(|buffer|, tail, d)])
  }

  // Writing `data` behind the stored bytes appends it, whether or not it wraps round.
  lemma {:induction false} UnrolledAppend(b: Bytes, b': Bytes, tail: nat, count: nat, data: Bytes)
    requires |b'| == |b| && tail < |b| && count + |data| < |b|
    requires var head := Advance(|b|, tail, count);
      && (forall j: nat :: j < |data| ==> b'[Advance(|b|, head, j)] == data[j])
      && (forall d: nat :: d < count ==> b'[Advance(|b|, tail, d)] == b[Advance(|b|, tail, d)])
    ensures Unrolled(b', tail, count + |data|) == Unrolled(b, tail, count) + data
  {
    var u := Unrolled(b', tail, count + |data|);
    forall d: nat | d < |u|
      ensures u[d] == (Unrolled(b, tail, count) + data)[d]
    {
      if d >= count {
        AdvanceTwice(|b|, tail, count, d - count);
      }
    }
  }

  lemma {:induction false} UnrolledDrop(b: Bytes, tail: nat, count: nat, n: nat)
    requires tail < |b| && n <= count < |b|
    ensures Unrolled(b, Advance(|b|, tail, n), count - n) == Unrolled(b, tail, count)[n..]
  {
    forall d: nat | d < count - n
      ensures Unrolled(b, Advance(|b|, tail, n), count - n)[d] == Unrolled(b, tail, count)[n..][d]
    {
      AdvanceTwice(|b|, tail, n, d);
    }
  }

  class StreamBuffer {
    const pucBuffer: array<Byte>
    const xLength: nat
    const message: bool
    const xTriggerLevelBytes: nat
    var xTaskWaitingToReceive: Option<nat>
    var xTaskWaitingToSend: Option<nat>
    var xHead: nat
    var xTail: nat

    // The messages stored in a message buffer.
    ghost var messages: seq<Bytes>

    ghost predicate Whole()
      reads this`xHead, this`xTail, pucBuffer
    {
      1 < xLength == pucBuffer.Length && xHead < xLength && xTail < xLength
    }

    // A message buffer holds whole frames.
    ghost predicate Valid()
      reads this, pucBuffer
    {
      && Whole()
      && (message ==> Contents() == Frames(messages))
      && forall i :: 0 <= i < |messages| ==> |messages[i]| < MAX_LENGTH
    }

    ghost function Contents(): (s: Bytes)
      requires Whole()
      reads this`xHead, this`xTail, pucBuffer
    {
      Unrolled(pucBuffer[..], xTail, BytesInBuffer(xLength, xHead, xTail))
    }

    /** xStreamBufferGenericCreate(): one slot more than asked for, as one stays empty. */
    constructor (xBufferSizeBytes: nat, xTriggerLevel: nat, isMessageBuffer: bool)
      requires (if isMessageBuffer then HEADER else 0) < xBufferSizeBytes && xTriggerLevel <= xBufferSizeBytes
      ensures Valid() && fresh(pucBuffer) && Contents() == [] && messages == []
      ensures xLength - 1 == xBufferSizeBytes && message == isMessageBuffer
      ensures xTriggerLevelBytes == (if xTriggerLevel == 0 then 1 else xTriggerLevel)
      ensures xTaskWaitingToReceive == None && xTaskWaitingToSend == None
    {
      pucBuffer := new Byte[xBufferSizeBytes + 1](_ => 0);
      xLength := xBufferSizeBytes + 1;
      message := isMessageBuffer;
      xTriggerLevelBytes := if xTriggerLevel == 0 then 1 else xTriggerLevel;
      xTaskWaitingToReceive, xTaskWaitingToSend := None, None;
      xHead, xTail, messages := 0, 0, [];
    }

    /** xStreamBufferSpacesAvailable(). */
    method Spaces() returns (xSpace: int)
      requires Whole()
      ensures xSpace == xLength - 1 - |Contents()|
    {
      xSpace := xLength + xTail;
      xSpace := xSpace - xHead;
      xSpace := xSpace - 1;
      if xSpace >= xLength {
        xSpace := xSpace - xLength;
      }
    }

    /** prvBytesInBuffer(). */
    method StoredBytes() returns (xCount: int)
      requires Whole()
      ensures xCount == |Contents()|
    {
      xCount := xLength + xHead;
      xCount := xCount - xTail;
      if xCount >= xLength {
        xCount := xCount - xLength;
      }
    }

    /** prvWriteBytesToBuffer(): two copies, the second at the start of the ring. */
    method WriteBytes(pucData: Bytes)
      requires Whole() && |pucData| <= xLength - 1 - |Contents()|
      modifies this`xHead, pucBuffer
      ensures Whole() && Contents() == old(Contents()) + pucData
    {
      ghost var before, count := pucBuffer[..], |Contents()|;
      var xNextHead := xHead;
      var xFirstLength := if xLength - xNextHead < |pucData| then xLength - xNextHead else |pucData|;
      forall i | 0 <= i < xFirstLength {
        pucBuffer[xNextHead + i] := pucData[i];
      }
      if |pucData| > xFirstLength {
        forall i | 0 <= i < |pucData| - xFirstLength {
          pucBuffer[i] := pucData[xFirstLength + i];
        }
      }
      xNextHead := xNextHead + |pucData|;
      if xNextHead >= xLength {
        xNextHead := xNextHead - xLength;
      }
      UnrolledAppend(before, pucBuffer[..], xTail, count, pucData);
      xHead := xNextHead;
    }

    /** prvReadBytesFromBuffer(): the oldest bytes move to the caller's buffer. */
    method ReadBytes(pucData: array<Byte>, xMaxCount: nat, xBytesAvailable: nat) returns (xCount: nat)
      requires Whole() && pucData != pucBuffer && xBytesAvailable <= |Contents()|
      requires pucData.Length >= (if xMaxCount < xBytesAvailable then xMaxCount else xBytesAvailable)
      modifies this`xTail, pucData
      ensures Whole() && xCount == if xMaxCount < xBytesAvailable then xMaxCount else xBytesAvailable
      ensures pucData[..xCount] == old(Contents())[..xCount] && Contents() == old(Contents())[xCount..]
      ensures xTail == Advance(xLength, old(xTail), xCount)
    {
      ghost var count := |Contents()|;
      xCount := if xBytesAvailable < xMaxCount then xBytesAvailable else xMaxCount;
      if xCount > 0 {
        CopyOut(pucData, xCount);
        UnrolledDrop(pucBuffer[..], xTail, count, xCount);
        var xNextTail := xTail + xCount;
        if xNextTail >= xLength {
          xNextTail := xNextTail - xLength;
        }
        xTail := xNextTail;
      }
    }

    // The two calls of memcpy() of prvReadBytesFromBuffer(), the second from the start of the ring.
    method CopyOut(pucData: array<Byte>, xCount: nat)
      requires Whole() && pucData != pucBuffer && xCount <= pucData.Length && xCount <= |Contents()|
      modifies pucData
      ensures pucData[..xCount] == Contents()[..xCount]
    {
      var xFirstLength := if xLength - xTail < xCount then xLength - xTail else xCount;
      forall i | 0 <= i < xFirstLength {
        pucData[i] := pucBuffer[xTail + i];
      }
      if xCount > xFirstLength {
        forall i | 0 <= i < xCount - xFirstLength {
          pucData[xFirstLength + i] := pucBuffer[i];
        }
      }
      assert forall d: nat :: d < xCount ==> pucData[d] == pucBuffer[Advance(xLength, xTail, d)];
    }

    /** prvWriteMessageToBuffer(): as much as there is room for, or in a message buffer all or nothing,
        with its length before it. */
    method WriteMessage(pvTxData: Bytes, xSpace: nat) returns (xReturn: nat)
      requires Valid() && xSpace <= xLength - 1 - |Contents()| && |pvTxData| < MAX_LENGTH
      modifies this`xHead, this`messages, pucBuffer
      ensures Valid()
      ensures !message ==> xReturn == Min(|pvTxData|, xSpace) && Contents() == old(Contents()) + pvTxData[..xReturn]
      ensures message && |pvTxData| + HEADER <= xSpace ==>
                xReturn == |pvTxData| && messages == old(messages) + [pvTxData]
      ensures message && |pvTxData| + HEADER > xSpace ==>
                xReturn == 0 && messages == old(messages) && Contents() == old(Contents())
    {
      var xDataLengthBytes := |pvTxData|;
      var xShouldWrite;
      if xSpace == 0 {
        xShouldWrite := false;
      } else if !message {
        xShouldWrite := true;
        xDataLengthBytes := Min(xDataLengthBytes, xSpace);
      } else if xSpace >= |pvTxData| + HEADER {
        xShouldWrite := true;
        WriteBytes(Encode(xDataLengthBytes));
      } else {
        xShouldWrite := false;
      }
      if xShouldWrite {
        WriteBytes(pvTxData[..xDataLengthBytes]);
        xReturn := xDataLengthBytes;
        if message {
          assert Contents() == Frames(messages) + Frame(pvTxData);
          messages := messages + [pvTxData];
        }
      } else {
        xReturn := 0;
      }
    }

    /** prvReadMessageFromBuffer(): as much as is wanted, or in a message buffer the oldest message if
        it fits - if it does not, it stays, and nothing is read. */
    method ReadMessage(pvRxData: array<Byte>, xBufferLengthBytes: nat, xBytesAvailable: nat) returns (xReceived: nat)
      requires Valid() && pvRxData != pucBuffer && pvRxData.Length == xBufferLengthBytes
      requires xBytesAvailable <= |Contents()|
      requires message ==> messages != [] && HEADER + |messages[0]| <= xBytesAvailable
      modifies this`xTail, this`messages, pvRxData
      ensures Valid()
      ensures xReceived <= pvRxData.Length
      ensures !message ==>
                && xReceived == Min(xBufferLengthBytes, xBytesAvailable)
                && pvRxData[..xReceived] == old(Contents())[..xReceived] && Contents() == old(Contents())[xReceived..]
      ensures message && |old(messages)[0]| <= xBufferLengthBytes ==>
                pvRxData[..xReceived] == old(messages)[0] && messages == old(messages)[1..]
      ensures message && |old(messages)[0]| > xBufferLengthBytes ==>
                xReceived == 0 && messages == old(messages) && Contents() == old(Contents())
    {
      var xNextMessageLength := xBufferLengthBytes;
      var available := xBytesAvailable;
      if message {
        HeadFrame(messages);
        var xOriginalTail := xTail;
        var xTempNextMessageLength := new Byte[HEADER];
        var n := ReadBytes(xTempNextMessageLength, HEADER, available);
        xNextMessageLength := Decode(xTempNextMessageLength[..]);
        assert xTempNextMessageLength[..] == xTempNextMessageLength[..n];
        available := available - HEADER;
        if xNextMessageLength > xBufferLengthBytes {
          xTail := xOriginalTail;
          xNextMessageLength := 0;
        } else {
          messages := messages[1..];
        }
      }
      xReceived := ReadBytes(pvRxData, xNextMessageLength, available);
    }

    /** xStreamBufferSendFromISR(): whoever waits for data is notified when the trigger level is reached. */
    method SendFromISR(pvTxData: Bytes) returns (xReturn: nat, notified: Option<nat>)
      requires Valid() && |pvTxData| < MAX_LENGTH
      modifies this`xHead, this`messages, this`xTaskWaitingToReceive, pucBuffer
      ensures Valid()
      ensures !message ==>
                && xReturn == Min(|pvTxData|, xLength - 1 - |old(Contents())|)
                && Contents() == old(Contents()) + pvTxData[..xReturn]
      ensures message ==>
                if |old(Contents())| + HEADER + |pvTxData| < xLength
                then xReturn == |pvTxData| && messages == old(messages) + [pvTxData]
                else xReturn == 0 && messages == old(messages) && Contents() == old(Contents())
      ensures if xReturn > 0 && |Contents()| >= xTriggerLevelBytes
              then notified == old(xTaskWaitingToReceive) && xTaskWaitingToReceive == None
              else notified == None && xTaskWaitingToReceive == old(xTaskWaitingToReceive)
    {
      notified := None;
      var xSpace := Spaces();
      xReturn := WriteMessage(pvTxData, xSpace);
      if xReturn > 0 {
        var xCount := StoredBytes();
        if xCount >= xTriggerLevelBytes {
          notified := SendCompleted();
        }
      }
    }

    // sbSEND_COMPLETE_FROM_ISR() and sbRECEIVE_COMPLETED_FROM_ISR().
    method SendCompleted() returns (notified: Option<nat>)
      modifies this`xTaskWaitingToReceive
      ensures notified == old(xTaskWaitingToReceive) && xTaskWaitingToReceive == None
    {
      notified := None;
      if xTaskWaitingToReceive != None {
        notified := xTaskWaitingToReceive;
        xTaskWaitingToReceive := None;
      }
    }

    method ReceiveCompleted() returns (notified: Option<nat>)
      modifies this`xTaskWaitingToSend
      ensures notified == old(xTaskWaitingToSend) && xTaskWaitingToSend == None
    {
      notified := None;
      if xTaskWaitingToSend != None {
        notified := xTaskWaitingToSend;
        xTaskWaitingToSend := None;
      }
    }

    /** xStreamBufferReceiveFromISR(): whoever waits for space is notified if bytes were read. A single
        empty message is not seen: its length is all there is. */
    method ReceiveFromISR(pvRxData: array<Byte>, xBufferLengthBytes: nat)
      returns (xReceived: nat, notified: Option<nat>)
      requires Valid() && pvRxData != pucBuffer && pvRxData.Length == xBufferLengthBytes
      modifies this`xTail, this`messages, this`xTaskWaitingToSend, pvRxData
      ensures Valid() && xReceived <= pvRxData.Length
      ensures !message ==>
                && xReceived == Min(xBufferLengthBytes, |old(Contents())|)
                && pvRxData[..xReceived] == old(Contents())[..xReceived] && Contents() == old(Contents())[xReceived..]
      ensures message ==>
                if old(messages) in {[], [[]]} || |old(messages)[0]| > xBufferLengthBytes
                then xReceived == 0 && messages == old(messages) && Contents() == old(Contents())
                else pvRxData[..xReceived] == old(messages)[0] && messages == old(messages)[1..]
      ensures if xReceived > 0 then notified == old(xTaskWaitingToSend) && xTaskWaitingToSend == None
              else notified == None && xTaskWaitingToSend == old(xTaskWaitingToSend)
    {
      notified := None;
      var xBytesToStoreMessageLength := if message then HEADER else 0;
      var xBytesAvailable := StoredBytes();
      xReceived := 0;
      if message {
        FramesLong(messages);
      }
      if xBytesAvailable > xBytesToStoreMessageLength {
        if message {
          HeadFrame(messages);
        }
        xReceived := ReadMessage(pvRxData, xBufferLengthBytes, xBytesAvailable);
        if xReceived != 0 {
          notified := ReceiveCompleted();
        }
      }
    }

    /** xStreamBufferNextMessageLengthBytes(): the tail is moved over the length, and put back. */
    method NextMessageLengthBytes() returns (xReturn: nat)
      requires Valid()
      modifies this`xTail
      ensures Valid() && Contents() == old(Contents()) && xTail == old(xTail)
      ensures xReturn == if message && messages != [] && messages != [[]] then |messages[0]| else 0
    {
      xReturn := 0;
      if message {
        FramesLong(messages);
        var xBytesAvailable := StoredBytes();
        if xBytesAvailable > HEADER {
          HeadFrame(messages);
          var xOriginalTail := xTail;
          var xTempReturn := new Byte[HEADER];
          var n := ReadBytes(xTempReturn, HEADER, xBytesAvailable);
          assert xTempReturn[..] == xTempReturn[..n];
          xReturn := Decode(xTempReturn[..]);
          xTail := xOriginalTail;
        }
      }
    }
  }

  /** What a message buffer that is not empty begins with. */
  lemma {:induction false} HeadFrame(ms: seq<Bytes>)
    requires ms != [] && |ms[0]| < MAX_LENGTH
    ensures var f, n := Frames(ms), |ms[0]|;
      && HEADER + n <= |f| && Decode(f[..HEADER]) == n && f[HEADER..HEADER + n] == ms[0]
      && f[HEADER + n..] == Frames(ms[1..])
  {
    FramesCons(ms);
    EncodeDecode(|ms[0]|);
    assert Frames(ms)[..HEADER] == Encode(|ms[0]|);
  }

  lemma {:induction false} FramesCons(ms: seq<Bytes>)
    requires ms != []
    ensures Frames(ms) == Encode(|ms[0]|) + ms[0] + Frames(ms[1..])
  {
    var n := |ms| - 1;
    if n > 0 {
      FramesCons(ms[..n]);
      assert ms[..n][1..] + [ms[n]] == ms[1..];
    } else {
      assert ms[..0] == [];
    }
  }

  // There is more than one length to read unless there is no message, or a single empty one.
  lemma {:induction false} FramesLong(ms: seq<Bytes>)
    ensures |Frames(ms)| > HEADER <==> ms != [] && ms != [[]]
  {
    if ms != [] {
      FramesCons(ms);
      if |ms| > 1 {
        FramesCons(ms[1..]);
      } else {
        assert ms == [ms[0]] && ms[1..] == [];
      }
    }
  }

  // ---- the steps of the protocol, taken one after the other, do what these methods do ----

  // The bytes a ring of the protocol stores, as Contents() has them.
  ghost function Unread(c: Config, r: Ring): (s: Bytes)
    requires RingSafe(c, r)
    ensures |s| == Count(r)
  {
    RingCounts(c, r);
    Unrolled(r.buffer, r.tail, BytesInBuffer(c.length, r.head, r.tail))
  }

  lemma {:induction false} UnreadIs(c: Config, r: Ring)
    requires RingSafe(c, r)
    ensures Unread(c, r) == r.accepted[|r.delivered|..]
  {
    RingCounts(c, r);
  }

  /** The steps of one copy and its publication do what WriteBytes() does. */
  lemma {:induction false} StepsWrite(c: Config, s: State)
    requires Safe(c, s) && Fit(c, s) && !s.reader.Restoring?
    requires s.writer.Copying? && s.writer.done == 0
    ensures LegalRun(c, s, Steps(|s.writer.parts[0]| + 1))
    ensures var s' := Exec(c, s, Steps(|s.writer.parts[0]| + 1));
      RingSafe(c, s'.ring) && Unread(c, s'.ring) == Unread(c, s.ring) + s.writer.parts[0]
  {
    var run := Steps(|s.writer.parts[0]| + 1);
    PartSent(c, s);
    RunKept(c, s, run);
    UnreadAdded(c, s.ring, Exec(c, s, run).ring, s.writer.parts[0]);
  }

  lemma {:induction false} UnreadAdded(c: Config, r: Ring, r': Ring, part: Bytes)
    requires RingSafe(c, r) && RingSafe(c, r')
    requires r'.accepted == r.accepted + part && r'.delivered == r.delivered
    ensures Unread(c, r') == Unread(c, r) + part
  {
    UnreadIs(c, r);
    UnreadIs(c, r');
  }

  // The first unread bytes, and those left once they are taken.
  lemma {:induction false} UnreadFirst(c: Config, r: Ring, n: nat)
    requires RingSafe(c, r) && n <= Count(r)
    ensures r.accepted[|r.delivered|..|r.delivered| + n] == Unread(c, r)[..n]
  {
    UnreadIs(c, r);
    Cut(r.accepted, |r.delivered|, n);
  }

  lemma {:induction false} UnreadTaken(c: Config, r: Ring, r': Ring, n: nat)
    requires RingSafe(c, r) && RingSafe(c, r') && n <= Count(r) && r'.accepted == r.accepted
    requires |r'.delivered| == |r.delivered| + n
    ensures Unread(c, r') == Unread(c, r)[n..]
  {
    UnreadIs(c, r);
    UnreadIs(c, r');
    Cut(r.accepted, |r.delivered|, n);
  }

  lemma {:induction false} Cut(s: Bytes, d: nat, n: nat)
    requires d + n <= |s|
    ensures s[d..][n..] == s[d + n..] && s[d..][..n] == s[d..d + n]
  {
  }

  /** The steps of fetching bytes and taking them do what ReadBytes() does. */
  lemma {:induction false} StepsRead(c: Config, s: State) returns (run: seq<Action>, e: State)
    requires Safe(c, s) && Fit(c, s) && s.reader.Fetching? && s.reader.got == [] && !s.reader.header
    ensures Leads(c, s, run, e) && RingSafe(c, e.ring)
    ensures e.received == s.received + [Unread(c, s.ring)[..s.reader.want]]
    ensures Unread(c, e.ring) == Unread(c, s.ring)[s.reader.want..]
  {
    run, e := MessageTaken(c, s);
    UnreadFirst(c, s.ring, s.reader.want);
    UnreadTaken(c, s.ring, e.ring, s.reader.want);
  }

  /** A whole send of the protocol does to the messages what WriteMessage() does: it appends one for which
      there is room. */
  lemma {:induction false} StepsSend(c: Config, s: State, ms: seq<Bytes>, m: Bytes)
    returns (run: seq<Action>, e: State)
    requires c.message && Safe(c, s) && Fit(c, s) && s.writer == NotSending && !s.reader.Restoring?
    requires Unread(c, s.ring) == Frames(ms) && |m| + HEADER <= Free(c, s.ring) && |m| < MAX_LENGTH
    ensures Leads(c, s, run, e) && RingSafe(c, e.ring)
    ensures e.sent == s.sent + [m] && Unread(c, e.ring) == Frames(ms + [m])
  {
    run, e := MessageSent(c, s, m);
    var r, r' := s.ring, e.ring;
    assert r'.accepted == r.accepted + Frame(m);
    UnreadAdded(c, r, r', Frame(m));
    FramesSnoc(ms, m);
  }

  // The length that is read is that of the first message.
  lemma {:induction false} FirstLength(c: Config, r: Ring, ms: seq<Bytes>)
    requires RingSafe(c, r) && Unread(c, r) == Frames(ms) && ms != [] && |ms[0]| < MAX_LENGTH
    ensures |r.delivered| + HEADER + |ms[0]| <= |r.accepted|
    ensures Decode(NextLength(r)) == |ms[0]|
    ensures r.accepted[|r.delivered| + HEADER..|r.delivered| + HEADER + |ms[0]|] == ms[0]
    ensures r.accepted[|r.delivered| + HEADER + |ms[0]|..] == Frames(ms[1..])
  {
    UnreadIs(c, r);
    HeadFrame(ms);
    assert NextLength(r) == Frames(ms)[..HEADER];
  }

  /** A whole receive does what ReadMessage() does: it takes the first message if it fits. */
  lemma {:induction false} StepsReceive(c: Config, s: State, ms: seq<Bytes>, max: nat)
    returns (run: seq<Action>, e: State)
    requires c.message && Safe(c, s) && Fit(c, s) && s.reader == NotReceiving
    requires Unread(c, s.ring) == Frames(ms) && ms != [] && ms != [[]] && |ms[0]| < MAX_LENGTH
    ensures Leads(c, s, run, e) && RingSafe(c, e.ring)
    ensures if |ms[0]| <= max
            then e.received == s.received + [ms[0]] && Unread(c, e.ring) == Frames(ms[1..])
            else e.received == s.received && Unread(c, e.ring) == Frames(ms) && e.reader == NotReceiving
  {
    FramesLong(ms);
    FirstLength(c, s.ring, ms);
    if |ms[0]| <= max {
      run, e := StepsTake(c, s, ms, max);
    } else {
      var s1;
      run, s1 := TooLarge(c, s, max);
      e := ReaderNext(c, s1);
      Last(c, s, run, s1, ReaderStep);
      run := run + [ReaderStep];
    }
  }

  lemma {:induction false} StepsTake(c: Config, s: State, ms: seq<Bytes>, max: nat) returns (run: seq<Action>, e: State)
    requires c.message && Safe(c, s) && Fit(c, s) && s.reader == NotReceiving && Count(s.ring) > HEADER
    requires Unread(c, s.ring) == Frames(ms) && ms != [] && |ms[0]| < MAX_LENGTH && |ms[0]| <= max
    ensures Leads(c, s, run, e) && RingSafe(c, e.ring)
    ensures e.received == s.received + [ms[0]] && Unread(c, e.ring) == Frames(ms[1..])
  {
    FirstLength(c, s.ring, ms);
    var got;
    run, e, got := Taken(c, s, max);
    UnreadIs(c, e.ring);
    assert |e.ring.delivered| == |s.ring.delivered| + HEADER + |ms[0]|;
  }
}
