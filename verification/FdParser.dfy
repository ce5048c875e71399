// The descriptor format as it runs: events that own descriptors, a vector that
// closes what its slots owned when it reuses or drops them, and the table the
// descriptors are open in.
module FdParser {
  import opened Wrappers
  import opened Bytes
  import opened Wire
  import opened EventWalk
  import opened Ledger

  // The process's descriptor table, with every close in order. A descriptor that
  // is not open cannot be closed.
  class Descriptors {
    var open: set<int>
    var closed: seq<int>

    constructor (open: set<int>)
      ensures this.open == open && closed == []
    {
      this.open, closed := open, [];
    }

    // The kernel opens descriptors of its own accord.
    method Install(fds: set<int>)
      modifies this`open
      ensures open == old(open) + fds
    {
      open := open + fds;
    }

    method Close(fd: int)
      requires fd in open
      modifies this
      ensures open == old(open) - {fd} && closed == old(closed) + [fd]
    {
      open := open - {fd};
      closed := closed + [fd];
    }
  }

  class FdEvent {
    var mask: nat
    var pid: int
    var fd: Option<int>
    var fdField: int

    constructor (mask: nat, fd: Option<int>, pid: int)
      ensures this.mask == mask && this.fd == fd && this.pid == pid
      ensures fdField == if fd.Some? then fd.value else FAN_NOFD
    {
      this.mask, this.fd, this.pid := mask, fd, pid;
      fdField := if fd.Some? then fd.value else FAN_NOFD;
    }

    function Facts(): FdFacts
      reads this
    {
      FdFacts(mask, pid, fdField)
    }

    // Dropping the `OwnedFd`, if there is one, closes it.
    method DropFd(table: Descriptors)
      requires fd.Some? ==> fd.value in table.open
      modifies `fd, table
      ensures fd == None
      ensures table.closed == old(table.closed) + Numbers([old(fd)])
      ensures table.open == old(table.open) - ToSet(Numbers([old(fd)]))
    {
      NumbersOfOne(fd);
      if fd.Some? {
        table.Close(fd.value);
      }
      fd := None;
    }

    method Reset(table: Descriptors)
      requires fd.Some? ==> fd.value in table.open
      modifies this, table
      ensures mask == 0 && pid == 0 && fd == None && fdField == 0
      ensures table.closed == old(table.closed) + Numbers([old(fd)])
      ensures table.open == old(table.open) - ToSet(Numbers([old(fd)]))
    {
      mask := 0;
      pid := 0;
      DropFd(table);
      fdField := 0;
    }

    // Take over the reported number, unless an earlier event of the buffer did.
    method AdoptReported(alreadyAdopted: seq<int>) returns (adopted: seq<int>)
      modifies `fd
      ensures var takes := old(fd).None? && fdField >= 0 && fdField !in alreadyAdopted;
        && fd == (if takes then Some(fdField) else old(fd))
        && adopted == (if takes then alreadyAdopted + [fdField] else alreadyAdopted)
    {
      adopted := alreadyAdopted;
      if fd.Some? || fdField < 0 || fdField in alreadyAdopted {
        return;
      }
      adopted := adopted + [fdField];
      fd := Some(fdField);
    }

    // Taking the descriptor out: from here on the event closes nothing.
    method IntoFd() returns (taken: Option<int>)
      modifies `fd
      ensures taken == old(fd) && fd == None
    {
      taken := fd;
      fd := None;
    }

    // Why the event carries no descriptor. A number it reports without owning is
    // not a reason.
    function NoFdReason(): Option<int>
      reads this
    {
      if fd.Some? || fdField >= 0 then None else Some(fdField)
    }
  }

  lemma NumbersOfOne(fd: Option<int>)
    ensures Numbers([fd]) == if fd.Some? then [fd.value] else []
  {
    assert [fd][..0] == [];
  }

  // What the slots of a vector own is open, and owned once.
  predicate Sound(fds: seq<Option<int>>, open: set<int>) {
    && OneOwnerEach(fds)
    && forall i :: 0 <= i < |fds| && fds[i].Some? ==> fds[i].value in open
  }

  // `Vec<FdEvent>`, with the storage it has reserved.
  class FdEventVec {
    var slots: seq<FdEvent>
    var capacity: nat

    predicate Valid()
      reads this
    {
      && |slots| <= capacity
      && forall i, j :: 0 <= i < j < |slots| ==> slots[i] != slots[j]
    }

    function Fds(): seq<Option<int>>
      reads this, slots
    {
      seq(|slots|, i requires 0 <= i < |slots| reads this, slots => slots[i].fd)
    }

    // `most` blank slots in storage reserved for exactly that many.
    constructor Reserved(most: nat)
      ensures Valid() && capacity == most && |slots| == most
      ensures forall e :: e in slots ==> fresh(e) && e.fd == None
    {
      slots := [];
      capacity := most;
      new;
      while |slots| < most
        invariant Valid() && |slots| <= most == capacity
        invariant forall e :: e in slots ==> fresh(e) && e.fd == None
      {
        var blank := new FdEvent(0, None, 0);
        slots := slots + [blank];
      }
    }

    // A vector that is full grows.
    method Push(e: FdEvent)
      requires Valid() && e !in slots
      modifies this
      ensures Valid() && slots == old(slots) + [e]
      ensures |old(slots)| < old(capacity) ==> capacity == old(capacity)
    {
      if |slots| == capacity {
        capacity := if capacity < 2 then 4 else 2 * capacity;
      }
      slots := slots + [e];
    }

    // Dropping the slots from `n` on closes what they own, in order.
    method Truncate(n: nat, table: Descriptors)
      requires Valid() && Sound(Fds(), table.open)
      modifies this, slots, table
      ensures Valid() && capacity == old(capacity)
      ensures slots == (if n < |old(slots)| then old(slots)[..n] else old(slots))
      ensures forall k :: 0 <= k < |slots| ==> slots[k].fd == old(slots[k].fd)
      ensures forall k :: 0 <= k < |slots| ==> slots[k].Facts() == old(slots[k].Facts())
      ensures var dropped := if n < |old(slots)| then old(Fds())[n..] else [];
        && table.closed == old(table.closed) + Numbers(dropped)
        && table.open == old(table.open) - ToSet(Numbers(dropped))
    {
      hide Numbers, OneOwnerEach;
      NoNumbers();
      if n >= |slots| {
        return;
      }
      ghost var was := Fds();
      assert was[n..n] == [];
      var k := n;
      while k < |slots|
        invariant n <= k <= |slots| && slots == old(slots) && capacity == old(capacity)
        invariant forall i :: 0 <= i < |slots| && !(n <= i < k) ==> slots[i].fd == was[i]
        invariant forall i :: 0 <= i < n ==> slots[i].Facts() == old(slots[i].Facts())
        invariant table.closed == old(table.closed) + Numbers(was[n..k])
        invariant table.open == old(table.open) - ToSet(Numbers(was[n..k]))
      {
        NextNumber(was, n, k, old(table.open));
        slots[k].DropFd(table);
        k := k + 1;
      }
      assert was[n..k] == was[n..];
      slots := slots[..n];
    }

    method Clear(table: Descriptors)
      requires Valid() && Sound(Fds(), table.open)
      modifies this, slots, table
      ensures Valid() && capacity == old(capacity) && slots == []
      ensures table.closed == old(table.closed) + old(Numbers(Fds()))
      ensures table.open == old(table.open) - ToSet(old(Numbers(Fds())))
    {
      assert Fds()[0..] == Fds();
      Truncate(0, table);
    }
  }

  // Closing what slots `n..k` owned leaves what slot `k` owns open.
  lemma NextNumber(fds: seq<Option<int>>, n: nat, k: nat, open: set<int>)
    requires n <= k < |fds| && Sound(fds, open)
    ensures fds[k].Some? ==> fds[k].value in open - ToSet(Numbers(fds[n..k]))
    ensures Numbers(fds[n..k + 1]) == Numbers(fds[n..k]) + Numbers([fds[k]])
  {
    assert fds[n..k + 1] == fds[n..k] + [fds[k]];
    NumbersAppend(fds[n..k], [fds[k]]);
    if fds[k].Some? {
      InNumbers(fds[n..k], fds[k].value);
      assert forall i :: 0 <= i < k - n ==> fds[n..k][i] == fds[n + i];
    }
  }

  // The slot the next event goes into. Reusing one closes what it owned.
  method BlankSlot(events: FdEventVec, n: nat, table: Descriptors) returns (slot: FdEvent)
    requires events.Valid() && n <= |events.slots|
    requires n < |events.slots| && events.slots[n].fd.Some? ==> events.slots[n].fd.value in table.open
    modifies events, table, if n < |events.slots| then {events.slots[n]} else {}
    ensures events.Valid() && slot.fd == None
    ensures n < |old(events.slots)| ==>
      && events.slots == old(events.slots) && slot == events.slots[n] && events.capacity == old(events.capacity)
      && table.closed == old(table.closed) + Numbers([old(events.slots[n].fd)])
      && table.open == old(table.open) - ToSet(Numbers([old(events.slots[n].fd)]))
    ensures n == |old(events.slots)| ==>
      && fresh(slot) && events.slots == old(events.slots) + [slot]
      && table.closed == old(table.closed) && table.open == old(table.open)
      && (n < old(events.capacity) ==> events.capacity == old(events.capacity))
  {
    if n < |events.slots| {
      events.slots[n].Reset(table);
    } else {
      var blank := new FdEvent(0, None, 0);
      events.Push(blank);
    }
    slot := events.slots[n];
  }

  function Least(n: nat, m: nat): nat {
    if n < m then n else m
  }

  // `n` events have been written over slots that owned `was`: what those slots
  // owned is closed, and the slots after them are as they were.
  ghost predicate Rewritten(events: FdEventVec, n: nat, table: Descriptors,
                            was: seq<Option<int>>, closed: seq<int>, open: set<int>)
    reads events, events.slots, table
  {
    && events.Valid() && Sound(was, open)
    && |events.slots| == (if n < |was| then |was| else n)
    && (forall k :: 0 <= k < n ==> events.slots[k].fd == None)
    && (forall k :: n <= k < |was| ==> events.slots[k].fd == was[k])
    && table.closed == closed + Numbers(was[..Least(n, |was|)])
    && table.open == open - ToSet(Numbers(was[..Least(n, |was|)]))
  }

  // One event written into slot `n`.
  method WriteSlot(events: FdEventVec, n: nat, meta: Meta, table: Descriptors,
                   ghost was: seq<Option<int>>, ghost closed: seq<int>, ghost open: set<int>)
    requires Rewritten(events, n, table, was, closed, open)
    modifies events, table, if n < |events.slots| then {events.slots[n]} else {}
    ensures Rewritten(events, n + 1, table, was, closed, open)
    ensures events.slots[n].Facts() == FdFacts(meta.mask, meta.pid, meta.fd)
    ensures n < |old(events.slots)| ==> events.slots == old(events.slots) && events.capacity == old(events.capacity)
    ensures n == |old(events.slots)| ==>
      && events.slots[..n] == old(events.slots) && fresh(events.slots[n])
      && (n < old(events.capacity) ==> events.capacity == old(events.capacity))
  {
    hide Numbers, Sound;
    if n < |was| {
      assert was[0..n] == was[..n] && was[0..n + 1] == was[..n + 1];
      NextNumber(was, 0, n, open);
    }
    var slot := BlankSlot(events, n, table);
    slot.mask := meta.mask;
    slot.pid := meta.pid;
    slot.fdField := meta.fd;
  }

  // Dropping the slots no event was written into closes what is left to close.
  method DropRest(events: FdEventVec, n: nat, table: Descriptors,
                  ghost was: seq<Option<int>>, ghost closed: seq<int>, ghost open: set<int>)
    requires Rewritten(events, n, table, was, closed, open)
    modifies events, events.slots, table
    ensures events.Valid() && events.capacity == old(events.capacity)
    ensures events.slots == old(events.slots)[..n]
    ensures forall k :: 0 <= k < n ==> events.slots[k].fd == None && events.slots[k].Facts() == old(events.slots[k].Facts())
    ensures table.closed == closed + Numbers(was) && table.open == open - ToSet(Numbers(was))
  {
    hide Numbers, OneOwnerEach;
    ghost var m := Least(n, |was|);
    assert was == was[..m] + was[m..];
    NumbersAppend(was[..m], was[m..]);
    RestIsSound(was, m, open, events.Fds());
    NoNumbers();
    if n < |was| {
      assert events.Fds()[n..] == was[n..];
    }
    events.Truncate(n, table);
  }

  // The walk, writing each event into the next slot. The slots beyond the last event
  // are left as they were.
  method WriteEvents(events: FdEventVec, buf: seq<byte>, table: Descriptors)
      returns (parsed: nat, offset: nat, stop: EventStop)
    requires events.Valid() && Sound(events.Fds(), table.open)
    modifies events, events.slots, table
    ensures Rewritten(events, parsed, table, old(events.Fds()), old(table.closed), old(table.open))
    ensures events.slots[..|old(events.slots)|] == old(events.slots)
    ensures forall k :: |old(events.slots)| <= k < |events.slots| ==> fresh(events.slots[k])
    ensures var w := Walk(buf, 0, false); parsed == |w.frames| && offset == w.consumed && stop == w.stop
    ensures forall k :: 0 <= k < parsed ==> events.slots[k].Facts() == FdEvents(Walk(buf, 0, false).frames)[k]
    ensures |Walk(buf, 0, false).frames| <= old(events.capacity) ==> events.capacity == old(events.capacity)
  {
    hide Look, Walk, Reached, ReadMeta, Numbers, Sound;
    ghost var frames, was := Walk(buf, 0, false).frames, events.Fds();
    ghost var closed, open := table.closed, table.open;
    parsed, offset := 0, 0;
    var versionChecked := false;
    ReachedAtStart(buf);
    NoNumbers();
    while true
      invariant offset <= |buf| && parsed <= |frames|
      invariant Rewritten(events, parsed, table, was, closed, open)
      invariant events.slots[..|was|] == old(events.slots)
      invariant forall k :: |was| <= k < |events.slots| ==> fresh(events.slots[k])
      invariant Reached(buf, parsed, offset, versionChecked)
      invariant forall k :: 0 <= k < parsed ==> events.slots[k].Facts() == FdEvents(frames)[k]
      invariant |frames| <= old(events.capacity) ==> events.capacity == old(events.capacity)
      decreases |buf| - offset
    {
      LookIs(buf, offset, versionChecked);
      if offset + METADATA_SIZE > |buf| {
        stop := if offset == |buf| then End else ShortHeader;
        break;
      }
      var meta := ReadMeta(buf, offset);
      if !versionChecked && meta.vers != METADATA_VERSION {
        stop := UnknownVersion(meta.vers);
        break;
      }
      if meta.eventLen < METADATA_SIZE || meta.eventLen > |buf| - offset {
        stop := BadEventLen(meta.eventLen);
        break;
      }
      var recordsStart := RecordsStart(meta);
      if recordsStart > meta.eventLen {
        stop := BadMetadataLen;
        break;
      }
      ReachedNext(buf, parsed, offset, versionChecked, Frame(offset, meta.eventLen, recordsStart, meta));
      if parsed < |was| {
        assert events.slots[parsed] == old(events.slots)[parsed];
      }
      WriteSlot(events, parsed, meta, table, was, closed, open);
      parsed := parsed + 1;
      offset := offset + meta.eventLen;
      versionChecked := true;
    }
    ReachedEnd(buf, parsed, offset, versionChecked, stop);
  }

  // Whatever the vector held before, it holds afterwards the events of `buf`,
  // owning nothing, and everything it owned has been closed, once and in order.
  method ParseFdEventsInto(events: FdEventVec, buf: seq<byte>, table: Descriptors)
      returns (report: ParseReport)
    requires events.Valid() && Sound(events.Fds(), table.open)
    modifies events, events.slots, table
    ensures events.Valid()
    ensures forall e :: e in events.slots ==> e in old(events.slots) || fresh(e)
    ensures report == ReportOf(buf, Walk(buf, 0, false))
    ensures |events.slots| == |Walk(buf, 0, false).frames|
    ensures forall k :: 0 <= k < |events.slots| ==>
      events.slots[k].fd == None && events.slots[k].Facts() == FdEvents(Walk(buf, 0, false).frames)[k]
    ensures table.closed == old(table.closed) + old(Numbers(events.Fds()))
    ensures table.open == old(table.open) - ToSet(old(Numbers(events.Fds())))
    ensures |Walk(buf, 0, false).frames| <= old(events.capacity) ==> events.capacity == old(events.capacity)
  {
    hide Walk, Numbers, Sound;
    ghost var was, closed, open := events.Fds(), table.closed, table.open;
    var parsed, offset, stop := WriteEvents(events, buf, table);
    forall e | e in events.slots
      ensures e in old(events.slots) || fresh(e)
    {
      var k :| 0 <= k < |events.slots| && events.slots[k] == e;
      assert k < |was| ==> e == old(events.slots)[k];
    }
    DropRest(events, parsed, table, was, closed, open);
    report := ParseReport(offset, |buf| - offset, stop);
  }

  lemma NoNumbers()
    ensures Numbers([]) == []
  {
  }

  lemma RestIsSound(was: seq<Option<int>>, m: nat, open: set<int>, now: seq<Option<int>>)
    requires m <= |was| <= |now| && Sound(was, open)
    requires forall k :: 0 <= k < |now| ==> now[k] == if m <= k < |was| then was[k] else None
    ensures Sound(now, open - ToSet(Numbers(was[..m])))
  {
    forall k | m <= k < |was| && was[k].Some?
      ensures was[k].value !in Numbers(was[..m])
    {
      InNumbers(was[..m], was[k].value);
      assert forall i :: 0 <= i < m ==> was[..m][i] == was[i];
    }
  }
}
