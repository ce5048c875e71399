// The storage a descriptor reader reserves: how many events a buffer can hold, and
// when a division by the header's size counts them.
module Storage {
  import opened Bytes
  import opened Wire
  import opened EventWalk
  import RoundTrip

  // `bytes.div_ceil(METADATA_SIZE)`.
  function MostEvents(bytes: nat): nat {
    (bytes + METADATA_SIZE - 1) / METADATA_SIZE
  }

  // A walk never finds more events than the storage reserved for the buffer, nor
  // than the bytes it consumed divided by a header's size.
  lemma StorageSuffices(buf: seq<byte>, size: nat)
    requires |buf| <= size
    ensures var w := Walk(buf, 0, false);
      |w.frames| <= w.consumed / METADATA_SIZE <= MostEvents(size)
    ensures size <= METADATA_SIZE * MostEvents(size) < size + METADATA_SIZE
  {
    var w := Walk(buf, 0, false);
    assert METADATA_SIZE * |w.frames| <= w.consumed <= size;
  }

  // The bytes the events have beyond a header each.
  function Excess(frames: seq<Frame>): int {
    if |frames| == 0 then 0 else Excess(frames[1..]) + frames[0].len - METADATA_SIZE
  }

  lemma {:induction false} ConsumedIsExcess(buf: seq<byte>, at: nat, checked: bool)
    requires at <= |buf|
    ensures var w := Walk(buf, at, checked);
      w.consumed == at + METADATA_SIZE * |w.frames| + Excess(w.frames) && Excess(w.frames) >= 0
    decreases |buf| - at
  {
    hide Look;
    match Look(buf, at, checked)
    case Stop(_) =>
    case Take(frame) =>
      ConsumedIsExcess(buf, at + frame.len, true);
      assert Walk(buf, at, checked).frames[1..] == Walk(buf, at + frame.len, true).frames;
  }

  // The division counts the events exactly if and only if together they are less
  // than one header longer than their headers.
  lemma DivisionIsExactIff(buf: seq<byte>)
    ensures var w := Walk(buf, 0, false);
      |w.frames| == w.consumed / METADATA_SIZE <==> Excess(w.frames) < METADATA_SIZE
  {
    hide Walk, Excess;
    ConsumedIsExcess(buf, 0, false);
  }

  // It does not always: one event of 48 bytes, with a header a newer kernel extended.
  lemma DivisionCountsTooMany() returns (buf: seq<byte>)
    ensures var w := Walk(buf, 0, false);
      w.stop == End && |w.frames| == 1 && w.consumed / METADATA_SIZE == 2
  {
    var e := RoundTrip.KernelEvent(0, FAN_NOFD, 0, 0, seq(METADATA_SIZE, _ => 0), [], []);
    hide Walk, RoundTrip.EncodeEvent;
    buf := RoundTrip.EncodeEvent(e);
    RoundTrip.OneEventParses(e, false);
  }
}
