/** Index arithmetic of stream_buffer.c. */
module StreamIndex {

  // The number of bytes that hold the length of a message.
  const HEADER := 4

  // xStreamBufferSpacesAvailable(): one slot stays empty.
  function SpacesAvailable(length: nat, head: nat, tail: nat): int {
    var space := length + tail - head - 1;
    if space >= length then space - length else space
  }

  // prvBytesInBuffer().
  function BytesInBuffer(length: nat, head: nat, tail: nat): int {
    var count := length + head - tail;
    if count >= length then count - length else count
  }

  // Moving an index on by at most one round.
  function Advance(length: nat, index: nat, count: nat): (r: nat)
    ensures index < length && count <= length ==> r < length
  {
    if index + count >= length then index + count - length else index + count
  }

  /** Moving on is additive, and different distances of less than a round end in different slots. */
  lemma {:induction false} AdvanceTwice(length: nat, index: nat, a: nat, b: nat)
    requires index < length && a <= length && a + b <= length
    ensures Advance(length, Advance(length, index, a), b) == Advance(length, index, a + b)
    ensures a < length && 0 < b < length ==> Advance(length, index, a) != Advance(length, Advance(length, index, a), b)
  {
  }

}
