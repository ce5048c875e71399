// The FID parser as it runs: an event object whose fields each record overwrites,
// and a vector whose event objects one parse after another reuses.
module FidParser {
  import opened Wrappers
  import opened Bytes
  import opened Wire
  import opened Events
  import opened Records
  import opened EventWalk

  class FidEvent {
    var mask: nat
    var pid: int
    var fsid: Option<Fsid>
    var dfidNameHandle: Option<Cow>
    var dfidNameName: Option<Cow>
    var selfHandle: Option<Cow>
    var pidfd: Pidfd
    var fdError: Option<int>
    var fsError: Option<(int, nat)>
    var accessRange: Option<(nat, nat)>
    var mntId: Option<nat>
    var renameSource: Option<RenameSide>
    var renameTarget: Option<RenameSide>
    var unknownInfoRecords: seq<RawRecord>
    var path: Option<Path>

    function View(): Event
      reads this
    {
      Event(mask, pid, fsid, dfidNameHandle, dfidNameName, selfHandle, pidfd, fdError, fsError,
            accessRange, mntId, renameSource, renameTarget, unknownInfoRecords, path)
    }

    constructor ()
      ensures View() == BLANK
    {
      mask, pid, fsid, dfidNameHandle, dfidNameName := 0, 0, None, None, None;
      selfHandle, pidfd, fdError, fsError, accessRange := None, Absent, None, None, None;
      mntId, renameSource, renameTarget, unknownInfoRecords, path := None, None, None, [], None;
    }

    method Reset()
      modifies this
      ensures View() == BLANK
    {
      hide View;
      ResetHeader();
      ResetObjects();
      ResetNumbers();
    }

    // What `Reset` drops: what comes from the header and from resolution, what the
    // event borrows, and the numbers its records carry.
    method ResetHeader()
      modifies this
      ensures View() == old(View()).(mask := 0, pid := 0, fdError := None, path := None)
    {
      mask := 0;
      pid := 0;
      fdError := None;
      path := None;
    }

    method ResetObjects()
      modifies this
      ensures View() ==
        old(View()).(fsid := None, dfidNameHandle := None, dfidNameName := None, selfHandle := None,
                     renameSource := None, renameTarget := None, unknownInfoRecords := [])
    {
      fsid := None;
      dfidNameHandle := None;
      dfidNameName := None;
      selfHandle := None;
      renameSource := None;
      renameTarget := None;
      unknownInfoRecords := [];
    }

    method ResetNumbers()
      modifies this
      ensures View() == old(View()).(pidfd := Absent, fsError := None, accessRange := None, mntId := None)
    {
      pidfd := Absent;
      fsError := None;
      accessRange := None;
      mntId := None;
    }

    // Keep the bytes `at..end` verbatim, header included.
    method Preserve(buf: seq<byte>, at: nat, end: nat, infoType: byte)
      requires at <= end <= |buf|
      modifies this`unknownInfoRecords
      ensures View() ==
        old(View()).(unknownInfoRecords := old(View()).unknownInfoRecords + [(infoType, Borrow(buf, at, end))])
    {
      unknownInfoRecords := unknownInfoRecords + [(infoType, Borrow(buf, at, end))];
    }

    method SetPath(p: Path)
      modifies this`path
      ensures path == Some(p)
    {
      path := Some(p);
    }
  }

  // The record lies in the buffer, header and all.
  ghost predicate Extent(buf: seq<byte>, headerAt: nat, recordEnd: nat) {
    headerAt + INFO_HEADER_SIZE <= recordEnd <= |buf|
  }

  // A record that names an entry: of the event, or of one side of a rename.
  method ReadNamed(event: FidEvent, buf: seq<byte>, headerAt: nat, recordEnd: nat, infoType: byte)
    requires Extent(buf, headerAt, recordEnd) && infoType in NAMED_TYPES
    modifies event
    ensures event.View() ==
      Absorb(old(event.View()),
             NamedContent(buf, headerAt + INFO_HEADER_SIZE, recordEnd - headerAt - INFO_HEADER_SIZE, infoType),
             RawOf(buf, Record(infoType, headerAt, recordEnd)))
  {
    hide SplitFsidHandleName, Borrow;
    match SplitFsidHandleName(buf, headerAt + INFO_HEADER_SIZE, recordEnd - headerAt - INFO_HEADER_SIZE)
    case Some((fsid, handle, name)) =>
      if infoType == TYPE_DFID_NAME {
        if event.dfidNameName.None? {
          event.fsid := FirstWins(event.fsid, fsid);
          event.dfidNameHandle := Some(handle);
          event.dfidNameName := Some(name);
        } else {
          event.Preserve(buf, headerAt, recordEnd, infoType);
        }
      } else if infoType == TYPE_OLD_DFID_NAME {
        event.fsid := FirstWins(event.fsid, fsid);
        event.renameSource := Some(RenameSide(handle, name));
      } else {
        event.fsid := FirstWins(event.fsid, fsid);
        event.renameTarget := Some(RenameSide(handle, name));
      }
    case None => event.Preserve(buf, headerAt, recordEnd, infoType);
  }

  // A record that names the event's own object.
  method ReadObject(event: FidEvent, buf: seq<byte>, headerAt: nat, recordEnd: nat, infoType: byte)
    requires Extent(buf, headerAt, recordEnd)
    modifies event
    ensures event.View() ==
      Absorb(old(event.View()),
             ObjectContent(buf, headerAt + INFO_HEADER_SIZE, recordEnd - headerAt - INFO_HEADER_SIZE),
             RawOf(buf, Record(infoType, headerAt, recordEnd)))
  {
    hide SplitFsidHandle, Borrow;
    match SplitFsidHandle(buf, headerAt + INFO_HEADER_SIZE, recordEnd - headerAt - INFO_HEADER_SIZE)
    case Some((fsid, handle)) =>
      event.fsid := FirstWins(event.fsid, fsid);
      event.selfHandle := Some(handle);
    case None => event.Preserve(buf, headerAt, recordEnd, infoType);
  }

  // A record that carries numbers, or of a type nobody knows.
  method ReadNumber(event: FidEvent, buf: seq<byte>, headerAt: nat, recordEnd: nat, infoType: byte)
    requires Extent(buf, headerAt, recordEnd)
    modifies event
    ensures event.View() ==
      Absorb(old(event.View()),
             NumberContent(buf, headerAt + INFO_HEADER_SIZE, recordEnd - headerAt - INFO_HEADER_SIZE, infoType),
             RawOf(buf, Record(infoType, headerAt, recordEnd)))
  {
    hide ReadU32, ReadU64, Borrow, AsI32, SaturatingSub;
    var payloadAt := headerAt + INFO_HEADER_SIZE;
    var payloadLen := recordEnd - headerAt - INFO_HEADER_SIZE;
    if infoType == TYPE_PIDFD {
      match ReadU32(buf, payloadAt, payloadLen)
      case Some(raw) =>
        if event.pidfd.Absent? {
          event.pidfd := Unavailable(AsI32(raw));
        } else {
          event.Preserve(buf, headerAt, recordEnd, infoType);
        }
      case None => event.Preserve(buf, headerAt, recordEnd, infoType);
    } else if infoType == TYPE_ERROR {
      match (ReadU32(buf, payloadAt, payloadLen),
             ReadU32(buf, payloadAt + 4, SaturatingSub(payloadLen, 4)))
      case (Some(error), Some(count)) => event.fsError := Some((AsI32(error), count));
      case _ => event.Preserve(buf, headerAt, recordEnd, infoType);
    } else if infoType == TYPE_RANGE {
      match (ReadU64(buf, payloadAt, payloadLen),
             ReadU64(buf, payloadAt + 8, SaturatingSub(payloadLen, 8)))
      case (Some(offset), Some(count)) => event.accessRange := Some((offset, count));
      case _ => event.Preserve(buf, headerAt, recordEnd, infoType);
    } else if infoType == TYPE_MNT {
      match ReadU64(buf, payloadAt, payloadLen)
      case Some(mntId) => event.mntId := Some(mntId);
      case None => event.Preserve(buf, headerAt, recordEnd, infoType);
    } else {
      event.Preserve(buf, headerAt, recordEnd, infoType);
    }
  }

  // One record of known extent: what it says goes to its field, or it is kept.
  method ReadRecord(event: FidEvent, buf: seq<byte>, headerAt: nat, recordEnd: nat, infoType: byte)
    requires headerAt + INFO_HEADER_SIZE <= recordEnd <= |buf|
    modifies event
    ensures event.View() ==
      Absorb(old(event.View()), ContentOf(buf, Record(infoType, headerAt, recordEnd)),
             RawOf(buf, Record(infoType, headerAt, recordEnd)))
  {
    hide Absorb, NamedContent, ObjectContent, NumberContent, RawOf, FidEvent.View;
    if infoType in NAMED_TYPES {
      ReadNamed(event, buf, headerAt, recordEnd, infoType);
    } else if infoType in OBJECT_TYPES {
      ReadObject(event, buf, headerAt, recordEnd, infoType);
    } else {
      ReadNumber(event, buf, headerAt, recordEnd, infoType);
    }
  }

  function Before(done: seq<Record>, t: Tiling): Tiling {
    t.(records := done + t.records)
  }

  lemma BeforeNothing(t: Tiling)
    ensures Before([], t) == t
  {
    assert [] + t.records == t.records;
  }

  lemma BeforeStop(done: seq<Record>, tail: Option<Record>, stop: nat)
    ensures Before(done, Tiling([], tail, stop)) == Tiling(done, tail, stop)
  {
    assert done + [] == done;
  }

  lemma KeepsNothing(ev: Event)
    ensures ev.(unknownInfoRecords := ev.unknownInfoRecords + []) == ev
  {
    assert ev.unknownInfoRecords + [] == ev.unknownInfoRecords;
  }

  // The event the records read so far amount to.
  ghost function SoFar(buf: seq<byte>, meta: Meta, done: seq<Record>): Event
    requires AllFit(done, |buf|)
  {
    Interpret(meta.mask, meta.pid, meta.fd, ContentsOf(buf, done), RawsOf(buf, done), [])
  }

  lemma SoFarExtends(buf: seq<byte>, meta: Meta, done: seq<Record>, r: Record)
    requires AllFit(done, |buf|) && Fits(r, |buf|)
    ensures AllFit(done + [r], |buf|)
    ensures SoFar(buf, meta, done + [r]) == Absorb(SoFar(buf, meta, done), ContentOf(buf, r), RawOf(buf, r))
  {
    hide ContentOf, RawOf, Interpret, Absorb;
    assert ContentsOf(buf, done + [r]) == ContentsOf(buf, done) + [ContentOf(buf, r)];
    assert RawsOf(buf, done + [r]) == RawsOf(buf, done) + [RawOf(buf, r)];
    InterpretExtends(meta.mask, meta.pid, meta.fd, ContentsOf(buf, done), RawsOf(buf, done),
                     ContentOf(buf, r), RawOf(buf, r));
  }

  lemma SoFarEnds(buf: seq<byte>, meta: Meta, from: nat, end: nat, done: seq<Record>)
    requires from <= end <= |buf| && AllFit(done, |buf|)
    requires Tile(buf, from, end).records == done
    ensures EventOf(buf, meta, from, end) ==
      SoFar(buf, meta, done).(unknownInfoRecords := SoFar(buf, meta, done).unknownInfoRecords
                                                    + TailOf(buf, Tile(buf, from, end).tail))
  {
    hide ContentOf, RawOf, Preserved, PicksOf, Tile, TailOf;
    var kept := Preserved(ContentsOf(buf, done), RawsOf(buf, done));
    assert kept + [] == kept;
  }

  lemma SoFarStarts(buf: seq<byte>, meta: Meta)
    ensures SoFar(buf, meta, []) ==
      BLANK.(mask := meta.mask, pid := meta.pid,
             fdError := if meta.fd < 0 && meta.fd != FAN_NOFD then Some(meta.fd) else None)
  {
    assert ContentsOf(buf, []) == [] && RawsOf(buf, []) == [];
  }

  // One step of the record walk leaves the tiling what it was.
  lemma StepTiles(buf: seq<byte>, from: nat, at: nat, end: nat, done: seq<Record>, len: nat)
    requires from <= at <= end <= |buf| && at + INFO_HEADER_SIZE <= end
    requires len == DeclaredLen(buf, at) && INFO_HEADER_SIZE <= len <= end - at
    requires Tile(buf, from, end) == Before(done, Tile(buf, at, end))
    ensures Tile(buf, from, end) == Before(done + [Record(buf[at], at, at + len)], Tile(buf, at + len, end))
  {
    hide DeclaredLen, Fits;
    var rest := Tile(buf, at + len, end);
    var r := Record(buf[at], at, at + len);
    assert Tile(buf, at, end) == rest.(records := [r] + rest.records);
    assert done + ([r] + rest.records) == (done + [r]) + rest.records;
  }

  // What the header says.
  method ReadHeader(event: FidEvent, buf: seq<byte>, meta: Meta)
    requires event.View() == BLANK
    modifies event
    ensures event.View() == SoFar(buf, meta, [])
  {
    hide SoFar;
    event.mask := meta.mask;
    event.pid := meta.pid;
    event.fdError := if meta.fd < 0 && meta.fd != FAN_NOFD then Some(meta.fd) else None;
    SoFarStarts(buf, meta);
  }

  method ParseOneEvent(event: FidEvent, buf: seq<byte>, eventStart: nat, eventLen: nat,
                       recordsStart: nat, meta: Meta)
    requires METADATA_SIZE <= recordsStart <= eventLen && eventStart + eventLen <= |buf|
    requires event.View() == BLANK
    modifies event
    ensures event.View() == EventOf(buf, meta, eventStart + recordsStart, eventStart + eventLen)
  {
    hide Tile, ContentOf, RawOf, Absorb, Interpret, LeValue, SoFar, EventOf, FidEvent.View, Before;
    ReadHeader(event, buf, meta);
    ghost var from, done := eventStart + recordsStart, [];
    var eventEnd := eventStart + eventLen;
    var headerAt := eventStart + recordsStart;
    ghost var tiling := Tile(buf, from, eventEnd);
    BeforeNothing(tiling);
    while headerAt + INFO_HEADER_SIZE <= eventEnd
      invariant from <= headerAt <= eventEnd
      invariant AllFit(done, |buf|)
      invariant tiling == Before(done, Tile(buf, headerAt, eventEnd))
      invariant event.View() == SoFar(buf, meta, done)
      decreases eventEnd - headerAt
    {
      var infoType := buf[headerAt];
      var recordLen := LeValue(buf[headerAt + 2..headerAt + 4]);
      if recordLen < INFO_HEADER_SIZE || recordLen > eventEnd - headerAt {
        StopAtBadLength(buf, headerAt, eventEnd);
        event.Preserve(buf, headerAt, eventEnd, infoType);
        BeforeStop(done, Some(Record(infoType, headerAt, eventEnd)), headerAt);
        SoFarEnds(buf, meta, from, eventEnd, done);
        RawOfIs(buf, Record(infoType, headerAt, eventEnd));
        return;
      }
      var recordEnd := headerAt + recordLen;
      StepTiles(buf, from, headerAt, eventEnd, done, recordLen);
      SoFarExtends(buf, meta, done, Record(infoType, headerAt, recordEnd));
      ReadRecord(event, buf, headerAt, recordEnd, infoType);
      done := done + [Record(infoType, headerAt, recordEnd)];
      headerAt := recordEnd;
    }
    StopAtSlack(buf, headerAt, eventEnd);
    BeforeStop(done, None, headerAt);
    SoFarEnds(buf, meta, from, eventEnd, done);
    KeepsNothing(SoFar(buf, meta, done));
  }

  lemma StopAtBadLength(buf: seq<byte>, at: nat, end: nat)
    requires at + INFO_HEADER_SIZE <= end <= |buf|
    requires !(INFO_HEADER_SIZE <= LeValue(buf[at + 2..at + 4]) <= end - at)
    ensures Tile(buf, at, end) == Tiling([], Some(Record(buf[at], at, end)), at)
  {
    hide LeValue;
  }

  lemma StopAtSlack(buf: seq<byte>, at: nat, end: nat)
    requires at <= end <= |buf| && end - at < INFO_HEADER_SIZE
    ensures Tile(buf, at, end) == Tiling([], None, at)
  {
  }

  lemma RawOfIs(buf: seq<byte>, r: Record)
    requires Fits(r, |buf|)
    ensures TailOf(buf, Some(r)) == [(r.infoType, Borrow(buf, r.at, r.end))]
  {
  }

  // `Vec<FidEvent>`: event objects, no two the same.
  class FidEventVec {
    var slots: seq<FidEvent>

    predicate Valid()
      reads this
    {
      forall i, j :: 0 <= i < j < |slots| ==> slots[i] != slots[j]
    }

    function Views(): seq<Event>
      reads this, slots
    {
      seq(|slots|, i requires 0 <= i < |slots| reads this, slots => slots[i].View())
    }

    constructor ()
      ensures Valid() && slots == []
    {
      slots := [];
    }

    method Truncate(n: nat)
      requires Valid()
      modifies this
      ensures Valid() && slots == (if n < |old(slots)| then old(slots)[..n] else old(slots))
    {
      if n < |slots| {
        slots := slots[..n];
      }
    }
  }

  // The slot the next event goes into: the one in place, reset, or a new one.
  method BlankSlot(events: FidEventVec, n: nat) returns (slot: FidEvent)
    requires events.Valid() && n <= |events.slots|
    modifies events, if n < |events.slots| then {events.slots[n]} else {}
    ensures events.Valid() && slot.View() == BLANK
    ensures n < |old(events.slots)| ==> events.slots == old(events.slots) && slot == events.slots[n]
    ensures n == |old(events.slots)| ==> fresh(slot) && events.slots == old(events.slots) + [slot]
  {
    hide FidEvent.View;
    if n < |events.slots| {
      events.slots[n].Reset();
    } else {
      var blank := new FidEvent();
      events.slots := events.slots + [blank];
    }
    slot := events.slots[n];
  }

  // Whatever the vector held before, it holds afterwards the events of `buf`, and
  // only event objects it held before or new ones.
  method ParseFidEventsInto(events: FidEventVec, buf: seq<byte>) returns (report: ParseReport)
    requires events.Valid()
    modifies events, events.slots
    ensures events.Valid()
    ensures forall e :: e in events.slots ==> e in old(events.slots) || fresh(e)
    ensures report == ReportOf(buf, Walk(buf, 0, false))
    ensures events.Views() == FidEvents(buf, Walk(buf, 0, false).frames)
  {
    hide Look, Walk, EventOf, Reached, ReadMeta, FidEvent.View;
    ghost var frames := Walk(buf, 0, false).frames;
    var parsed, offset, versionChecked := 0, 0, false;
    var stop: EventStop;
    ReachedAtStart(buf);
    while true
      invariant events.Valid()
      invariant forall e :: e in events.slots ==> e in old(events.slots) || fresh(e)
      invariant offset <= |buf| && parsed <= |events.slots| && parsed <= |frames|
      invariant Reached(buf, parsed, offset, versionChecked)
      invariant forall k :: 0 <= k < parsed ==> events.slots[k].View() == FidEventAt(buf, frames[k])
      decreases |buf| - offset
    {
      LookIs(buf, offset, versionChecked);
      if offset + METADATA_SIZE > |buf| {
        stop := if offset == |buf| then End else ShortHeader;
        break;
      }
      var meta := ReadMeta(buf, offset);
      if !versionChecked && meta.vers != METADATA_VERSION {
        stop := UnknownVersion(meta.vers);
        break;
      }
      if meta.eventLen < METADATA_SIZE || meta.eventLen > |buf| - offset {
        stop := BadEventLen(meta.eventLen);
        break;
      }
      var recordsStart := RecordsStart(meta);
      if recordsStart > meta.eventLen {
        stop := BadMetadataLen;
        break;
      }
      ReachedNext(buf, parsed, offset, versionChecked, Frame(offset, meta.eventLen, recordsStart, meta));
      assert parsed < |events.slots| ==> events.slots[parsed] in events.slots;
      var slot := BlankSlot(events, parsed);
      ParseOneEvent(slot, buf, offset, meta.eventLen, recordsStart, meta);
      parsed := parsed + 1;
      offset := offset + meta.eventLen;
      versionChecked := true;
    }
    ReachedEnd(buf, parsed, offset, versionChecked, stop);
    events.Truncate(parsed);
    report := ParseReport(offset, |buf| - offset, stop);
    assert events.Views() == FidEvents(buf, frames);
  }
}
