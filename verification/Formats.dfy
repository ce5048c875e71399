// One buffer read by both parsers.
module Formats {
  import opened Bytes
  import opened EventWalk
  import FidParser
  import FdParser

  // Both loops stop at the same place for the same reason and find the same events,
  // whatever their vectors held before. The events tile what was consumed.
  method ReadBothWays(buf: seq<byte>, fid: FidParser.FidEventVec, fd: FdParser.FdEventVec,
                      table: FdParser.Descriptors) returns (report: ParseReport, fdReport: ParseReport)
    requires fid.Valid() && fd.Valid() && FdParser.Sound(fd.Fds(), table.open)
    modifies fid, fid.slots, fd, fd.slots, table
    ensures report == fdReport
    ensures |fid.slots| == |fd.slots|
    ensures forall k :: 0 <= k < |fid.slots| ==>
      fid.slots[k].mask == fd.slots[k].mask && fid.slots[k].pid == fd.slots[k].pid
    ensures var frames := Walk(buf, 0, false).frames;
      && |fid.slots| == |frames|
      && (forall k :: 0 <= k < |frames| ==> TilesAt(buf, frames, k) && fid.slots[k].mask == frames[k].meta.mask)
      && report.bytesConsumed == FrameStart(0, frames, |frames|)
    ensures report.bytesConsumed + report.bytesLeft == |buf|
    ensures report.stop == End <==> report.bytesLeft == 0
  {
    hide Walk, FdParser.Sound, TilesAt;
    report := FidParser.ParseFidEventsInto(fid, buf);
    ghost var events := fid.Views();
    fdReport := FdParser.ParseFdEventsInto(fd, buf, table);
    WalkTiles(buf);
    forall k | 0 <= k < |fid.slots|
      ensures fid.slots[k].View() == events[k]
    {
    }
  }
}
