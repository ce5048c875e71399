// The owning readers: a buffer the kernel overwrites, and the events of the last
// read, which are all a reader ever holds.
module Readers {
  import opened Wrappers
  import opened Bytes
  import opened Wire
  import opened Events
  import opened Records
  import opened EventWalk
  import opened Ledger
  import opened FdParser
  import opened Storage
  import FidParser

  const DEFAULT_BUF_BYTES: nat := 64 * 1024

  function BufferSize(capacity: nat): nat {
    if capacity == 0 then DEFAULT_BUF_BYTES else capacity
  }

  predicate AnswerFits(answer: ReadAnswer, size: nat) {
    answer.Delivered? ==> |answer.bytes| <= size
  }

  // `read(2)` into a buffer that cannot grow: the answer's bytes at its front, the
  // rest untouched, and nothing at all written when it fails.
  method ReadInto(buf: array<byte>, answer: ReadAnswer) returns (r: Result<nat, int>)
    requires AnswerFits(answer, buf.Length)
    modifies buf
    ensures answer.Failed? ==> r == Err(answer.errno) && buf[..] == old(buf[..])
    ensures answer.Delivered? ==>
      && r == Ok(|answer.bytes|)
      && buf[..] == answer.bytes + old(buf[..])[|answer.bytes|..]
  {
    match answer
    case Failed(errno) => r := Err(errno);
    case Delivered(bytes, _) =>
      var i := 0;
      while i < |bytes|
        invariant i <= |bytes|
        invariant forall k :: 0 <= k < i ==> buf[k] == bytes[k]
        invariant forall k :: i <= k < buf.Length ==> buf[k] == old(buf[k])
      {
        buf[i] := bytes[i];
        i := i + 1;
      }
      r := Ok(|bytes|);
  }

  function ReportedFields(events: FdEventVec): seq<int>
    reads events, events.slots
  {
    seq(|events.slots|, i requires 0 <= i < |events.slots| reads events, events.slots => events.slots[i].fdField)
  }

  // The scratch list holds the numbers taken over by the first `k` events.
  ghost predicate TakenBefore(adopted: seq<int>, fields: seq<int>, k: nat) {
    k <= |fields| && forall n :: n in adopted <==> n in fields[..k] && n >= 0
  }

  lemma NothingTaken(fields: seq<int>)
    ensures TakenBefore([], fields, 0)
  {
  }

  lemma TakesNext(adopted: seq<int>, fields: seq<int>, k: nat)
    requires k < |fields| && TakenBefore(adopted, fields, k)
    ensures var takes := fields[k] >= 0 && fields[k] !in adopted;
      && Owner(fields, k) == (if takes then Some(fields[k]) else None)
      && TakenBefore(if takes then adopted + [fields[k]] else adopted, fields, k + 1)
  {
    assert fields[..k + 1] == fields[..k] + [fields[k]];
  }

  // Each event takes over the descriptor it reports, unless an earlier one did.
  method AdoptAll(events: FdEventVec)
    requires events.Valid() && forall k :: 0 <= k < |events.slots| ==> events.slots[k].fd == None
    modifies events.slots
    ensures events.Fds() == Owners(old(ReportedFields(events)))
    ensures forall k :: 0 <= k < |events.slots| ==> events.slots[k].Facts() == old(events.slots[k].Facts())
  {
    hide TakenBefore, Owner;
    ghost var fields := ReportedFields(events);
    var adopted: seq<int> := [];
    NothingTaken(fields);
    var k := 0;
    while k < |events.slots|
      invariant k <= |events.slots|
      invariant forall i :: 0 <= i < |events.slots| ==> events.slots[i].Facts() == old(events.slots[i].Facts())
      invariant forall i :: 0 <= i < k ==> events.slots[i].fd == Owner(fields, i)
      invariant forall i :: k <= i < |events.slots| ==> events.slots[i].fd == None
      invariant TakenBefore(adopted, fields, k)
    {
      assert events.slots[k].Facts().fdField == fields[k];
      TakesNext(adopted, fields, k);
      adopted := events.slots[k].AdoptReported(adopted);
      k := k + 1;
    }
  }

  // The parse and the adoption of one read, into storage that holds nothing.
  method TakeEvents(events: FdEventVec, read: seq<byte>, size: nat, table: Descriptors,
                    ghost open: set<int>, ghost answer: ReadAnswer) returns (report: ParseReport)
    requires events.Valid() && events.slots == [] && events.capacity == MostEvents(size) && |read| <= size
    requires Honest(open, answer) && answer.Delivered? && answer.bytes == read
    requires table.open == open + answer.installed
    modifies events, table
    ensures events.Valid() && events.capacity == MostEvents(size)
    ensures table.open == old(table.open) && table.closed == old(table.closed)
    ensures report == ReportOf(read, Walk(read, 0, false))
    ensures events.Fds() == Owners(FieldsOf(read)) && Sound(events.Fds(), table.open)
    ensures |events.slots| == |Walk(read, 0, false).frames|
    ensures forall k :: 0 <= k < |events.slots| ==>
      fresh(events.slots[k]) && events.slots[k].Facts() == FdEvents(Walk(read, 0, false).frames)[k]
  {
    hide Walk, Numbers, Owners, Sound, Honest;
    NothingIsSound(events.Fds(), table.open);
    NobodyOwns(events.Fds());
    StorageSuffices(read, size);
    report := ParseFdEventsInto(events, read, table);
    forall k | 0 <= k < |events.slots|
      ensures fresh(events.slots[k])
    {
      assert events.slots[k] in events.slots;
    }
    NothingIsSound(events.Fds(), table.open);
    NobodyOwns([]);
    events.Truncate(report.bytesConsumed / METADATA_SIZE, table);
    assert ReportedFields(events) == FieldsOf(read);
    AdoptAll(events);
    AdoptionIsSound(open, answer);
  }

  // Event `k` owns the number of its header's field if that is one and no earlier
  // header of the buffer has it, and nothing otherwise.
  ghost predicate FdsAreAdopted(frames: seq<Frame>, fds: seq<Option<int>>) {
    && |fds| == |frames|
    && forall k :: 0 <= k < |frames| ==>
      fds[k] ==
        if frames[k].meta.fd >= 0 && forall j :: 0 <= j < k ==> frames[j].meta.fd != frames[k].meta.fd
        then Some(frames[k].meta.fd) else None
  }

  lemma OwnersAreAsPromised(read: seq<byte>)
    ensures FdsAreAdopted(Walk(read, 0, false).frames, Owners(FieldsOf(read)))
  {
    hide Walk;
    var frames, fields := Walk(read, 0, false).frames, FieldsOf(read);
    forall k | 0 <= k < |frames|
      ensures fields[k] in fields[..k] <==> exists j :: 0 <= j < k && frames[j].meta.fd == frames[k].meta.fd
    {
      if j :| 0 <= j < k && frames[j].meta.fd == frames[k].meta.fd {
        assert fields[..k][j] == fields[k];
      }
    }
  }

  // A negative field says why there is no descriptor.
  function ReasonIn(field: int): Option<int> {
    if field < 0 then Some(field) else None
  }

  // After a read an event has a reason exactly when its header's field is negative:
  // an event whose number an earlier event owns has neither a descriptor nor a reason.
  lemma ReasonIsTheField(event: FdEvent, fields: seq<int>, k: nat)
    requires k < |fields| && event.fd == Owner(fields, k) && event.fdField == fields[k]
    ensures event.NoFdReason() == ReasonIn(fields[k]) == (if fields[k] < 0 then Some(fields[k]) else None)
    ensures fields[k] in fields[..k] && fields[k] >= 0 ==> event.fd.None? && event.NoFdReason().None?
    ensures event.fd.None? && event.NoFdReason().None? ==> fields[k] in fields[..k]
  {
  }

  lemma ReasonsAreTheFields(events: FdEventVec, read: seq<byte>)
    requires events.Fds() == Owners(FieldsOf(read)) && |events.slots| == |Walk(read, 0, false).frames|
    requires forall k :: 0 <= k < |events.slots| ==>
      events.slots[k].Facts() == FdEvents(Walk(read, 0, false).frames)[k]
    ensures forall k :: 0 <= k < |events.slots| ==> events.slots[k].NoFdReason() == ReasonIn(FieldsOf(read)[k])
  {
    hide Walk, Owner, ReasonIn, FdEvent.NoFdReason;
    forall k | 0 <= k < |events.slots|
      ensures events.slots[k].NoFdReason() == ReasonIn(FieldsOf(read)[k])
    {
      assert events.Fds()[k] == Owner(FieldsOf(read), k);
      ReasonIsTheField(events.slots[k], FieldsOf(read), k);
    }
  }

  class FdEventReader {
    const buf: array<byte>
    var bytesRead: nat
    const events: FdEventVec
    const table: Descriptors
    // Everything this reader ever took over, and everything it ever closed.
    ghost var adopted: seq<int>
    ghost var released: seq<int>

    ghost predicate Valid()
      reads this, buf, events, events.slots, table
    {
      && bytesRead <= buf.Length
      && events.Valid() && events.capacity == MostEvents(buf.Length)
      && Sound(events.Fds(), table.open)
    }

    ghost function Books(): Account
      reads this, events, events.slots, table
    {
      Account(table.open, Numbers(events.Fds()), adopted, released)
    }

    function RawBytes(): seq<byte>
      requires bytesRead <= buf.Length
      reads this, buf
    {
      buf[..bytesRead]
    }

    constructor (capacity: nat, table: Descriptors)
      ensures Valid() && this.table == table && buf.Length == BufferSize(capacity)
      ensures buf.Length == if capacity == 0 then 65536 else capacity
      ensures Books() == Fresh(table.open) && RawBytes() == []
      ensures fresh(buf) && fresh(events) && forall e :: e in events.slots ==> fresh(e)
    {
      var bytes := BufferSize(capacity);
      buf := new byte[bytes](_ => 0);
      events := new FdEventVec.Reserved(MostEvents(bytes));
      this.table := table;
      bytesRead := 0;
      adopted, released := [], [];
      new;
      NobodyOwns(events.Fds());
    }

    method ReadReported(answer: ReadAnswer) returns (r: Result<ParseReport, int>)
      requires Valid() && AnswerFits(answer, buf.Length)
      requires Honest(CloseAll(Books()).open, answer)
      modifies this, buf, events, events.slots, table
      ensures Valid()
      ensures Books() == ReadStep(old(Books()), answer)
      ensures table.closed == old(table.closed) + old(Books().owned)
      ensures answer.Failed? ==> r == Err(answer.errno) && RawBytes() == [] && events.slots == []
      ensures answer.Delivered? ==>
        && r == Ok(ReportOf(answer.bytes, Walk(answer.bytes, 0, false)))
        && RawBytes() == answer.bytes
        && |events.slots| == |Walk(answer.bytes, 0, false).frames|
        && events.Fds() == Owners(FieldsOf(answer.bytes))
        && FdsAreAdopted(Walk(answer.bytes, 0, false).frames, events.Fds())
        && forall k :: 0 <= k < |events.slots| ==>
             && events.slots[k].Facts() == FdEvents(Walk(answer.bytes, 0, false).frames)[k]
             && events.slots[k].NoFdReason() == ReasonIn(FieldsOf(answer.bytes)[k])
      ensures forall e :: e in events.slots ==> e in old(events.slots) || fresh(e)
    {
      hide Walk, Numbers, Owners, Sound, Honest, FdEvent.NoFdReason, ReasonIn, FdsAreAdopted;
      bytesRead := 0;
      released := released + Numbers(events.Fds());
      events.Clear(table);
      NobodyOwns(events.Fds());
      NothingIsSound(events.Fds(), table.open);

      // The read. What the kernel opens for it, it opens now.
      var n := ReadInto(buf, answer);
      if n.Err? {
        return Err(n.error);
      }
      table.Install(answer.installed);
      bytesRead := n.value;

      var read := buf[..n.value];
      assert read == answer.bytes;
      var report := TakeEvents(events, read, buf.Length, table, old(CloseAll(Books()).open), answer);
      adopted := adopted + Numbers(events.Fds());
      ReasonsAreTheFields(events, read);
      OwnersAreAsPromised(read);
      return Ok(report);
    }

    // Dropping the reader drops its events.
    method Drop()
      requires Valid()
      modifies this, events, events.slots, table
      ensures Books() == CloseAll(old(Books()))
      ensures table.closed == old(table.closed) + old(Books().owned)
    {
      released := released + Numbers(events.Fds());
      events.Clear(table);
      NobodyOwns(events.Fds());
    }
  }

  // What the rest of the process may do between reads. It is none of the reader's
  // business: what it owns stays open, and its account is kept.
  method HappensElsewhere(reader: FdEventReader, opens: set<int>, closes: set<int>)
    requires reader.Valid() && HonestStep(reader.Books(), Elsewhere(opens, closes))
    modifies reader.table`open
    ensures reader.Valid()
    ensures reader.Books() == Next(old(reader.Books()), Elsewhere(opens, closes))
  {
    hide Numbers;
    forall k | 0 <= k < |reader.events.Fds()| && reader.events.Fds()[k].Some?
      ensures reader.events.Fds()[k].value !in closes
    {
      InNumbers(reader.events.Fds(), reader.events.Fds()[k].value);
    }
    reader.table.open := reader.table.open + opens - closes;
  }

  // ----- The reader of FID events. -----

  // `adopt_reported_pidfd`: a number is taken over unless it is a sentinel or an
  // earlier record of the buffer named it.
  method AdoptReportedPidfd(raw: int, alreadyAdopted: seq<int>) returns (pidfd: Pidfd, adopted: seq<int>)
    ensures var takes := raw >= 0 && raw !in alreadyAdopted;
      && pidfd == (if takes then Fd(raw) else Unavailable(raw))
      && adopted == (if takes then alreadyAdopted + [raw] else alreadyAdopted)
  {
    if raw < 0 || raw in alreadyAdopted {
      return Unavailable(raw), alreadyAdopted;
    }
    return Fd(raw), alreadyAdopted + [raw];
  }

  // What event `k` of a buffer ends up with: the descriptor it reports, if it is
  // the first event to report it.
  function AdoptedPidfd(events: seq<Event>, k: nat): Pidfd
    requires k < |events|
  {
    match events[k].pidfd
    case Unavailable(n) =>
      if n >= 0 && Unavailable(n) !in Pidfds(events)[..k] then Fd(n) else Unavailable(n)
    case other => other
  }

  function Pidfds(events: seq<Event>): seq<Pidfd> {
    seq(|events|, k requires 0 <= k < |events| => events[k].pidfd)
  }

  function AdoptedEvents(events: seq<Event>): seq<Event> {
    seq(|events|, k requires 0 <= k < |events| => events[k].(pidfd := AdoptedPidfd(events, k)))
  }

  // No two events of a parsed buffer own the same pidfd, and every number reported
  // has an owner.
  lemma PidfdsHaveOneOwner(events: seq<Event>, n: int)
    requires n >= 0 && forall k :: 0 <= k < |events| ==> !events[k].pidfd.Fd?
    ensures forall i, j :: 0 <= i < j < |events| && AdoptedEvents(events)[i].pidfd == Fd(n) ==>
      AdoptedEvents(events)[j].pidfd != Fd(n)
    ensures (exists i :: 0 <= i < |events| && AdoptedEvents(events)[i].pidfd == Fd(n)) <==>
      (exists i :: 0 <= i < |events| && events[i].pidfd == Unavailable(n))
  {
    forall i, j | 0 <= i < j < |events| && events[i].pidfd == Unavailable(n)
      ensures Unavailable(n) in Pidfds(events)[..j]
    {
      assert Pidfds(events)[..j][i] == Unavailable(n);
    }
    if i :| 0 <= i < |events| && events[i].pidfd == Unavailable(n) {
      var k := FirstReport(events, n, i);
      assert AdoptedEvents(events)[k].pidfd == Fd(n);
    }
  }

  // The events as parsed and as the reader hands them out. Nothing changes but pidfds.
  // No record stays no record, a sentinel stays the reason it is, and a number is
  // owned by the first event reporting it and by no later one.
  ghost predicate PidfdsAreAdopted(parsed: seq<Event>, now: seq<Event>) {
    && |now| == |parsed|
    && forall k :: 0 <= k < |parsed| ==>
      && now[k] == parsed[k].(pidfd := now[k].pidfd)
      && (parsed[k].pidfd.Absent? ==> now[k].pidfd.Absent?)
      && (parsed[k].pidfd.Unavailable? && parsed[k].pidfd.number < 0 ==> now[k].pidfd == parsed[k].pidfd)
      && (parsed[k].pidfd.Unavailable? && parsed[k].pidfd.number >= 0 ==>
            now[k].pidfd ==
              if exists j :: 0 <= j < k && parsed[j].pidfd == parsed[k].pidfd
              then parsed[k].pidfd else Fd(parsed[k].pidfd.number))
  }

  lemma AdoptionIsAsPromised(events: seq<Event>)
    ensures PidfdsAreAdopted(events, AdoptedEvents(events))
  {
    forall k | 0 <= k < |events|
      ensures events[k].pidfd in Pidfds(events)[..k] <==> exists j :: 0 <= j < k && events[j].pidfd == events[k].pidfd
    {
      if j :| 0 <= j < k && events[j].pidfd == events[k].pidfd {
        assert Pidfds(events)[..k][j] == events[k].pidfd;
      }
    }
  }

  lemma NothingAdopted()
    ensures AdoptedEvents([]) == []
  {
  }

  lemma {:induction false} FirstReport(events: seq<Event>, n: int, i: nat) returns (k: nat)
    requires i < |events| && events[i].pidfd == Unavailable(n)
    ensures k < |events| && events[k].pidfd == Unavailable(n)
    ensures forall j :: 0 <= j < k ==> events[j].pidfd != Unavailable(n)
    decreases i
  {
    if j :| 0 <= j < i && events[j].pidfd == Unavailable(n) {
      k := FirstReport(events, n, j);
    } else {
      k := i;
    }
  }

  method AdoptOne(event: FidParser.FidEvent, alreadyAdopted: seq<int>) returns (adopted: seq<int>)
    modifies event`pidfd
    ensures event.pidfd ==
      if old(event.pidfd).Unavailable? && old(event.pidfd).number >= 0 && old(event.pidfd).number !in alreadyAdopted
      then Fd(old(event.pidfd).number) else old(event.pidfd)
    ensures forall n :: n in adopted <==> n in alreadyAdopted || (n >= 0 && old(event.pidfd) == Unavailable(n))
  {
    adopted := alreadyAdopted;
    if event.pidfd.Unavailable? {
      event.pidfd, adopted := AdoptReportedPidfd(event.pidfd.number, adopted);
    }
  }

  method AdoptPidfds(events: FidParser.FidEventVec)
    requires events.Valid() && forall k :: 0 <= k < |events.slots| ==> !events.slots[k].pidfd.Fd?
    modifies events.slots
    ensures events.Views() == AdoptedEvents(old(events.Views()))
  {
    ghost var was := events.Views();
    var adopted: seq<int> := [];
    var k := 0;
    while k < |events.slots|
      invariant k <= |events.slots| == |was|
      invariant forall i :: 0 <= i < k ==> events.slots[i].View() == was[i].(pidfd := AdoptedPidfd(was, i))
      invariant forall i :: k <= i < |was| ==> events.slots[i].View() == was[i]
      invariant forall n :: n in adopted <==> n >= 0 && Unavailable(n) in Pidfds(was)[..k]
    {
      assert events.slots[k].View() == was[k];
      assert Pidfds(was)[..k + 1] == Pidfds(was)[..k] + [was[k].pidfd];
      adopted := AdoptOne(events.slots[k], adopted);
      k := k + 1;
    }
  }

  class EventReader {
    const buf: array<byte>
    var bytesRead: nat
    const events: FidParser.FidEventVec

    function RawBytes(): seq<byte>
      requires bytesRead <= buf.Length
      reads this, buf
    {
      buf[..bytesRead]
    }

    // What a reader needs to read again, whatever the caller made of its events.
    ghost predicate Usable()
      reads this, events
    {
      bytesRead <= buf.Length && events.Valid()
    }

    // Every handle, name, rename side and preserved record an event holds is a
    // range of the bytes last read, inside that event's own records, and still has
    // the bytes that lie there.
    ghost predicate Valid()
      reads this, buf, events, events.slots
    {
      && Usable()
      && var frames := Walk(RawBytes(), 0, false).frames;
         && |events.slots| == |frames|
         && forall k :: 0 <= k < |frames| ==> ViewIsInside(events.slots[k].View(), RawBytes(), frames[k])
    }

    constructor (capacity: nat)
      ensures Valid() && events.slots == [] && bytesRead == 0
      ensures buf.Length == (if capacity == 0 then 65536 else capacity) && fresh(buf) && fresh(events)
    {
      var bytes := BufferSize(capacity);
      buf := new byte[bytes](_ => 0);
      bytesRead := 0;
      events := new FidParser.FidEventVec();
      new;
      assert buf[..0] == [];
    }

    method ReadReported(answer: ReadAnswer) returns (r: Result<ParseReport, int>)
      requires Usable() && AnswerFits(answer, buf.Length)
      modifies this, buf, events
      ensures Valid()
      ensures forall e :: e in events.slots ==> fresh(e)
      ensures answer.Failed? ==>
        r == Err(answer.errno) && bytesRead == 0 && events.slots == [] && buf[..] == old(buf[..])
      ensures answer.Delivered? ==>
        && r == Ok(ReportOf(answer.bytes, Walk(answer.bytes, 0, false)))
        && RawBytes() == answer.bytes
        && events.Views() == AdoptedEvents(FidEvents(answer.bytes, Walk(answer.bytes, 0, false).frames))
        && PidfdsAreAdopted(FidEvents(answer.bytes, Walk(answer.bytes, 0, false).frames), events.Views())
    {
      hide Walk, PidfdsAreAdopted, AdoptedEvents;
      bytesRead := 0;
      events.Truncate(0);
      assert buf[..0] == [];
      NothingToWalk();
      var n := ReadInto(buf, answer);
      if n.Err? {
        assert buf[..0] == [];
        return Err(n.error);
      }
      bytesRead := n.value;
      ghost var read := buf[..n.value];
      assert read == answer.bytes;
      if n.value == 0 {
        AdoptionIsAsPromised([]);
        NothingAdopted();
        return Ok(ParseReport(0, 0, End));
      }
      var report := FillEvents(events, buf[..n.value]);
      AdoptionIsAsPromised(FidEvents(read, Walk(read, 0, false).frames));
      return Ok(report);
    }
  }

  // What a caller may do with the events of a read: put a path on one.
  method ResolveOnto(reader: EventReader, k: nat, path: Path)
    requires reader.Valid() && k < |reader.events.slots|
    modifies reader.events.slots[k]
    ensures reader.Valid() && reader.RawBytes() == old(reader.RawBytes())
    ensures reader.events.slots[k].View() == old(reader.events.slots[k].View()).(path := Some(path))
    ensures reader.events.slots == old(reader.events.slots)
  {
    hide Walk;
    reader.events.slots[k].SetPath(path);
  }

  predicate ViewIsInside(ev: Event, read: seq<byte>, f: Frame) {
    EventInside(ev, read, f.at + f.recordsStart, f.at + f.len)
  }

  lemma NothingToWalk()
    ensures Walk([], 0, false) == Walked([], 0, End)
  {
  }

  // The parse and the adoption of one read, into a vector that holds nothing.
  method FillEvents(events: FidParser.FidEventVec, read: seq<byte>) returns (report: ParseReport)
    requires events.Valid() && events.slots == []
    modifies events
    ensures events.Valid()
    ensures forall e :: e in events.slots ==> fresh(e)
    ensures report == ReportOf(read, Walk(read, 0, false))
    ensures events.Views() == AdoptedEvents(FidEvents(read, Walk(read, 0, false).frames))
    ensures forall k :: 0 <= k < |events.slots| ==>
      ViewIsInside(events.slots[k].View(), read, Walk(read, 0, false).frames[k])
  {
    hide Walk, FidEventAt, ViewIsInside;
    report := FidParser.ParseFidEventsInto(events, read);
    ghost var parsed := FidEvents(read, Walk(read, 0, false).frames);
    NothingIsOwnedYet(read, Walk(read, 0, false).frames);
    forall k | 0 <= k < |events.slots|
      ensures fresh(events.slots[k]) && !events.slots[k].pidfd.Fd?
    {
      assert events.slots[k] in events.slots;
      assert events.slots[k].View() == events.Views()[k] == parsed[k];
    }
    AdoptPidfds(events);
    AdoptedStayInside(read, Walk(read, 0, false).frames);
    forall k | 0 <= k < |events.slots|
      ensures ViewIsInside(events.slots[k].View(), read, Walk(read, 0, false).frames[k])
    {
      assert events.slots[k].View() == events.Views()[k];
    }
  }

  lemma NothingIsOwnedYet(read: seq<byte>, frames: seq<Frame>)
    requires AllFramesFit(frames, |read|)
    ensures forall k :: 0 <= k < |frames| ==> !FidEvents(read, frames)[k].pidfd.Fd?
  {
    hide Tile, PicksOf, Preserved;
  }

  lemma AdoptedStayInside(read: seq<byte>, frames: seq<Frame>)
    requires AllFramesFit(frames, |read|)
    ensures forall k :: 0 <= k < |frames| ==>
      ViewIsInside(AdoptedEvents(FidEvents(read, frames))[k], read, frames[k])
  {
    hide EventOf;
    forall k | 0 <= k < |frames|
      ensures ViewIsInside(AdoptedEvents(FidEvents(read, frames))[k], read, frames[k])
    {
      var f := frames[k];
      EventIsInside(read, f.meta, f.at + f.recordsStart, f.at + f.len);
    }
  }

  lemma NothingIsSound(fds: seq<Option<int>>, open: set<int>)
    requires forall k :: 0 <= k < |fds| ==> fds[k] == None
    ensures Sound(fds, open)
  {
  }

  lemma AdoptionIsSound(open: set<int>, answer: ReadAnswer)
    requires Honest(open, answer) && answer.Delivered?
    ensures Sound(Owners(FieldsOf(answer.bytes)), open + answer.installed)
  {
    hide Walk;
    var fields := FieldsOf(answer.bytes);
    AdoptionIsExact(fields);
    forall i | 0 <= i < |fields| && Owner(fields, i).Some?
      ensures fields[i] in answer.installed
    {
    }
  }

  lemma {:induction false} NobodyOwns(fds: seq<Option<int>>)
    requires forall k :: 0 <= k < |fds| ==> fds[k] == None
    ensures Numbers(fds) == []
  {
    if |fds| != 0 {
      NobodyOwns(fds[..|fds| - 1]);
    }
  }
}
