// What a FID event says, and how the records an event carries decide it.
module Events {
  import opened Wrappers
  import opened Bytes
  import opened Wire

  datatype RenameSide = RenameSide(handle: Cow, name: Cow)

  datatype Pidfd = Absent | Fd(number: int) | Unavailable(number: int)

  // A preserved record: its type and its bytes, header included.
  type RawRecord = (byte, Cow)

  // The value of a `FidEvent`: every field, including where resolution put the
  // path.
  datatype Event = Event(
    mask: nat,
    pid: int,
    fsid: Option<Fsid>,
    dfidNameHandle: Option<Cow>,
    dfidNameName: Option<Cow>,
    selfHandle: Option<Cow>,
    pidfd: Pidfd,
    fdError: Option<int>,
    fsError: Option<(int, nat)>,
    accessRange: Option<(nat, nat)>,
    mntId: Option<nat>,
    renameSource: Option<RenameSide>,
    renameTarget: Option<RenameSide>,
    unknownInfoRecords: seq<RawRecord>,
    path: Option<Path>)

  const BLANK: Event :=
    Event(0, 0, None, None, None, None, Absent, None, None, None, None, None, None, [], None)

  // The payload of one record, read for its type.
  datatype Content =
    | Entry(fsid: Fsid, handle: Cow, name: Cow)
    | Object(fsid: Fsid, handle: Cow)
    | RenameFrom(fsid: Fsid, handle: Cow, name: Cow)
    | RenameTo(fsid: Fsid, handle: Cow, name: Cow)
    | Process(number: int)
    | FsError(error: int, count: nat)
    | Access(offset: nat, length: nat)
    | Mount(id: nat)
    | Opaque

  // The questions an event's fields ask of its records. `Identity` is any record
  // that names a handle and therefore a filesystem.
  datatype Kind =
    | Identity | EntryKind | ObjectKind | FromKind | ToKind
    | ProcessKind | ErrorKind | AccessKind | MountKind

  predicate Is(kind: Kind, c: Content) {
    match kind
    case Identity => c.Entry? || c.Object? || c.RenameFrom? || c.RenameTo?
    case EntryKind => c.Entry?
    case ObjectKind => c.Object?
    case FromKind => c.RenameFrom?
    case ToKind => c.RenameTo?
    case ProcessKind => c.Process?
    case ErrorKind => c.FsError?
    case AccessKind => c.Access?
    case MountKind => c.Mount?
  }

  // The first record of a kind, and the last one.
  function FirstOf(kind: Kind, cs: seq<Content>): Option<Content> {
    if |cs| == 0 then None
    else
      var earlier := FirstOf(kind, cs[..|cs| - 1]);
      if earlier.Some? then earlier
      else if Is(kind, cs[|cs| - 1]) then Some(cs[|cs| - 1]) else None
  }

  function LastOf(kind: Kind, cs: seq<Content>): Option<Content> {
    if |cs| == 0 then None
    else if Is(kind, cs[|cs| - 1]) then Some(cs[|cs| - 1])
    else LastOf(kind, cs[..|cs| - 1])
  }

  // Whether a record is kept verbatim: it was not understood, or it repeats a
  // record of which only the first is read.
  predicate Kept(before: seq<Content>, c: Content) {
    || c.Opaque?
    || (c.Entry? && FirstOf(EntryKind, before).Some?)
    || (c.Process? && FirstOf(ProcessKind, before).Some?)
  }

  function Preserved(cs: seq<Content>, raws: seq<RawRecord>): seq<RawRecord>
    requires |raws| == |cs|
  {
    if |cs| == 0 then []
    else
      var n := |cs| - 1;
      Preserved(cs[..n], raws[..n]) + (if Kept(cs[..n], cs[n]) then [raws[n]] else [])
  }

  // The records the fields of an event are read from.
  datatype Picks = Picks(
    identity: Option<Content>,
    entry: Option<Content>,
    own: Option<Content>,
    process: Option<Content>,
    fsError: Option<Content>,
    access: Option<Content>,
    mount: Option<Content>,
    from: Option<Content>,
    to: Option<Content>)

  // The filesystem is that of the first record naming one; the first DFID_NAME
  // and the first PIDFD record are read, and of every other kind the last.
  function PicksOf(cs: seq<Content>): Picks {
    Picks(FirstOf(Identity, cs),
          FirstOf(EntryKind, cs),
          LastOf(ObjectKind, cs),
          FirstOf(ProcessKind, cs),
          LastOf(ErrorKind, cs),
          LastOf(AccessKind, cs),
          LastOf(MountKind, cs),
          LastOf(FromKind, cs),
          LastOf(ToKind, cs))
  }

  // The event that a header and its records amount to; `tail` is what could not
  // be walked past.
  function Interpret(mask: nat, pid: int, fd: int, cs: seq<Content>, raws: seq<RawRecord>,
                     tail: seq<RawRecord>): Event
    requires |raws| == |cs|
  {
    Build(mask, pid, fd, PicksOf(cs), Preserved(cs, raws) + tail)
  }

  function Build(mask: nat, pid: int, fd: int, p: Picks, unknown: seq<RawRecord>): Event {
    Event(
      mask,
      pid,
      FsidIn(p.identity),
      HandleIn(p.entry),
      NameIn(p.entry),
      HandleIn(p.own),
      PidfdIn(p.process),
      if fd < 0 && fd != FAN_NOFD then Some(fd) else None,
      FsErrorIn(p.fsError),
      AccessIn(p.access),
      MountIn(p.mount),
      SideIn(p.from),
      SideIn(p.to),
      unknown,
      None)
  }

  function FsidIn(c: Option<Content>): Option<Fsid> {
    if c.Some? && Is(Identity, c.value) then Some(c.value.fsid) else None
  }

  function HandleIn(c: Option<Content>): Option<Cow> {
    if c.Some? && Is(Identity, c.value) then Some(c.value.handle) else None
  }

  function NameIn(c: Option<Content>): Option<Cow> {
    if c.Some? && c.value.Entry? then Some(c.value.name) else None
  }

  function SideIn(c: Option<Content>): Option<RenameSide> {
    if c.Some? && (c.value.RenameFrom? || c.value.RenameTo?)
    then Some(RenameSide(c.value.handle, c.value.name)) else None
  }

  function PidfdIn(c: Option<Content>): Pidfd {
    if c.Some? && c.value.Process? then Unavailable(c.value.number) else Absent
  }

  function FsErrorIn(c: Option<Content>): Option<(int, nat)> {
    if c.Some? && c.value.FsError? then Some((c.value.error, c.value.count)) else None
  }

  function AccessIn(c: Option<Content>): Option<(nat, nat)> {
    if c.Some? && c.value.Access? then Some((c.value.offset, c.value.length)) else None
  }

  function MountIn(c: Option<Content>): Option<nat> {
    if c.Some? && c.value.Mount? then Some(c.value.id) else None
  }

  // What reading one more record does to an event.
  function Absorb(ev: Event, c: Content, raw: RawRecord): Event {
    var kept := ev.(unknownInfoRecords := ev.unknownInfoRecords + [raw]);
    match c
    case Entry(fsid, handle, name) =>
      if ev.dfidNameName.None? then
        ev.(fsid := FirstWins(ev.fsid, fsid), dfidNameHandle := Some(handle), dfidNameName := Some(name))
      else kept
    case Object(fsid, handle) =>
      ev.(fsid := FirstWins(ev.fsid, fsid), selfHandle := Some(handle))
    case RenameFrom(fsid, handle, name) =>
      ev.(fsid := FirstWins(ev.fsid, fsid), renameSource := Some(RenameSide(handle, name)))
    case RenameTo(fsid, handle, name) =>
      ev.(fsid := FirstWins(ev.fsid, fsid), renameTarget := Some(RenameSide(handle, name)))
    case Process(number) =>
      if ev.pidfd.Absent? then ev.(pidfd := Unavailable(number)) else kept
    case FsError(error, count) => ev.(fsError := Some((error, count)))
    case Access(offset, length) => ev.(accessRange := Some((offset, length)))
    case Mount(id) => ev.(mntId := Some(id))
    case Opaque => kept
  }

  // The readings above, said with positions.
  lemma {:induction false} FirstOfMeans(kind: Kind, cs: seq<Content>)
    ensures FirstOf(kind, cs).None? ==> forall j :: 0 <= j < |cs| ==> !Is(kind, cs[j])
    ensures FirstOf(kind, cs).Some? ==>
      exists i :: 0 <= i < |cs| && cs[i] == FirstOf(kind, cs).value && Is(kind, cs[i])
               && forall j :: 0 <= j < i ==> !Is(kind, cs[j])
  {
    if |cs| != 0 {
      var n := |cs| - 1;
      var init := cs[..n];
      FirstOfMeans(kind, init);
      if FirstOf(kind, init).Some? {
        var i :| 0 <= i < n && init[i] == FirstOf(kind, init).value && Is(kind, init[i])
                 && forall j :: 0 <= j < i ==> !Is(kind, init[j]);
        assert cs[i] == init[i] && forall j :: 0 <= j < i ==> cs[j] == init[j];
      } else {
        assert forall j :: 0 <= j < n ==> cs[j] == init[j];
        assert FirstOf(kind, cs).Some? ==> cs[n] == FirstOf(kind, cs).value;
      }
    }
  }

  lemma {:induction false} LastOfMeans(kind: Kind, cs: seq<Content>)
    ensures LastOf(kind, cs).None? ==> forall j :: 0 <= j < |cs| ==> !Is(kind, cs[j])
    ensures LastOf(kind, cs).Some? ==>
      exists i :: 0 <= i < |cs| && cs[i] == LastOf(kind, cs).value && Is(kind, cs[i])
               && forall j :: i < j < |cs| ==> !Is(kind, cs[j])
  {
    if |cs| != 0 {
      var n := |cs| - 1;
      var init := cs[..n];
      LastOfMeans(kind, init);
      assert forall j :: 0 <= j < n ==> cs[j] == init[j];
      if !Is(kind, cs[n]) && LastOf(kind, init).Some? {
        var i :| 0 <= i < n && init[i] == LastOf(kind, init).value && Is(kind, init[i])
                 && forall j :: i < j < n ==> !Is(kind, init[j]);
        assert cs[i] == init[i];
      } else {
        assert LastOf(kind, cs).Some? ==> cs[n] == LastOf(kind, cs).value;
      }
    }
  }

  lemma KeptMeans(cs: seq<Content>, i: nat)
    requires i < |cs|
    ensures Kept(cs[..i], cs[i]) <==>
      || cs[i].Opaque?
      || (cs[i].Entry? && exists j :: 0 <= j < i && cs[j].Entry?)
      || (cs[i].Process? && exists j :: 0 <= j < i && cs[j].Process?)
  {
    FirstOfMeans(EntryKind, cs[..i]);
    FirstOfMeans(ProcessKind, cs[..i]);
    assert forall j :: 0 <= j < i ==> cs[..i][j] == cs[j];
  }

  predicate KeptAt(cs: seq<Content>, i: nat) {
    i < |cs| && Kept(cs[..i], cs[i])
  }

  lemma KeptInPrefix(cs: seq<Content>, n: nat, i: nat)
    requires i < n <= |cs|
    ensures KeptAt(cs[..n], i) == KeptAt(cs, i)
  {
    assert cs[..n][..i] == cs[..i];
  }

  // `at` are the kept positions, all of them, in order.
  ghost predicate KeptList(cs: seq<Content>, at: seq<nat>) {
    && (forall k, l :: 0 <= k < l < |at| ==> at[k] < at[l])
    && (forall i: nat :: i in at <==> KeptAt(cs, i))
  }

  lemma KeptListExtends(cs: seq<Content>, init: seq<nat>)
    requires |cs| != 0 && KeptList(cs[..|cs| - 1], init)
    ensures KeptList(cs, if KeptAt(cs, |cs| - 1) then init + [|cs| - 1] else init)
  {
    hide Kept;
    var n := |cs| - 1;
    var at := if KeptAt(cs, n) then init + [n] else init;
    forall k | 0 <= k < |init|
      ensures init[k] < n
    {
      assert init[k] in init && KeptAt(cs[..n], init[k]);
    }
    forall i: nat
      ensures i in at <==> KeptAt(cs, i)
    {
      if i < n {
        KeptInPrefix(cs, n, i);
      }
    }
  }

  function At(raws: seq<RawRecord>, at: seq<nat>): seq<RawRecord>
    requires forall k :: 0 <= k < |at| ==> at[k] < |raws|
  {
    seq(|at|, k requires 0 <= k < |at| => raws[at[k]])
  }

  // The preserved records are the raw bytes at exactly the positions that are kept,
  // in their order.
  lemma {:induction false} PreservedIsExact(cs: seq<Content>, raws: seq<RawRecord>) returns (at: seq<nat>)
    requires |raws| == |cs|
    ensures KeptList(cs, at)
    ensures forall k :: 0 <= k < |at| ==> at[k] < |raws|
    ensures Preserved(cs, raws) == At(raws, at)
  {
    hide Kept, KeptList;
    if |cs| == 0 {
      at := [];
      NothingKept(cs);
    } else {
      var n := |cs| - 1;
      var init := PreservedIsExact(cs[..n], raws[..n]);
      KeptListExtends(cs, init);
      at := if KeptAt(cs, n) then init + [n] else init;
      assert At(raws, at) == At(raws[..n], init) + (if KeptAt(cs, n) then [raws[n]] else []);
    }
  }

  lemma NothingKept(cs: seq<Content>)
    requires cs == []
    ensures KeptList(cs, [])
  {
  }

  // What one more record does to the records the fields are read from.
  function Advance(p: Picks, c: Content): Picks {
    match c
    case Entry(_, _, _) => p.(identity := FirstWins(p.identity, c), entry := FirstWins(p.entry, c))
    case Object(_, _) => p.(identity := FirstWins(p.identity, c), own := Some(c))
    case RenameFrom(_, _, _) => p.(identity := FirstWins(p.identity, c), from := Some(c))
    case RenameTo(_, _, _) => p.(identity := FirstWins(p.identity, c), to := Some(c))
    case Process(_) => p.(process := FirstWins(p.process, c))
    case FsError(_, _) => p.(fsError := Some(c))
    case Access(_, _) => p.(access := Some(c))
    case Mount(_) => p.(mount := Some(c))
    case Opaque => p
  }

  // `a.or(Some(b))`.
  function FirstWins<T>(a: Option<T>, b: T): Option<T> {
    if a.Some? then a else Some(b)
  }

  predicate WellPicked(p: Picks) {
    && (p.identity.Some? ==> Is(Identity, p.identity.value))
    && (p.entry.Some? ==> p.entry.value.Entry? && p.identity.Some?)
    && (p.process.Some? ==> p.process.value.Process?)
  }

  lemma {:induction false} PicksExtend(cs: seq<Content>, c: Content)
    ensures PicksOf(cs + [c]) == Advance(PicksOf(cs), c)
  {
    assert (cs + [c])[..|cs|] == cs;
  }

  lemma {:induction false} PicksAreWellPicked(cs: seq<Content>)
    ensures WellPicked(PicksOf(cs))
  {
    if |cs| != 0 {
      PicksAreWellPicked(cs[..|cs| - 1]);
    }
  }

  lemma BuildAbsorbs(mask: nat, pid: int, fd: int, p: Picks, unknown: seq<RawRecord>, c: Content, raw: RawRecord)
    requires WellPicked(p)
    ensures Absorb(Build(mask, pid, fd, p, unknown), c, raw) ==
      Build(mask, pid, fd, Advance(p, c), unknown + (if KeptAfter(p, c) then [raw] else []))
  {
    assert unknown + [] == unknown;
  }

  predicate KeptAfter(p: Picks, c: Content) {
    c.Opaque? || (c.Entry? && p.entry.Some?) || (c.Process? && p.process.Some?)
  }

  // Reading records one at a time is interpreting all of them at once.
  lemma InterpretExtends(mask: nat, pid: int, fd: int, cs: seq<Content>, raws: seq<RawRecord>,
                         c: Content, raw: RawRecord)
    requires |raws| == |cs|
    ensures Interpret(mask, pid, fd, cs + [c], raws + [raw], []) ==
      Absorb(Interpret(mask, pid, fd, cs, raws, []), c, raw)
  {
    PicksExtend(cs, c);
    PicksAreWellPicked(cs);
    PreservedExtends(cs, raws, c, raw);
    var p, unknown := PicksOf(cs), Preserved(cs, raws);
    assert unknown + [] == unknown;
    BuildAbsorbs(mask, pid, fd, p, unknown, c, raw);
    assert Preserved(cs + [c], raws + [raw]) + [] == Preserved(cs + [c], raws + [raw]);
  }

  lemma PreservedExtends(cs: seq<Content>, raws: seq<RawRecord>, c: Content, raw: RawRecord)
    requires |raws| == |cs|
    ensures Preserved(cs + [c], raws + [raw]) ==
      Preserved(cs, raws) + (if KeptAfter(PicksOf(cs), c) then [raw] else [])
  {
    assert (cs + [c])[..|cs|] == cs && (raws + [raw])[..|cs|] == raws;
  }

  // ----- Taking ownership, and moving to another place in the buffer. -----

  function MapCow(c: Option<Cow>, d: Option<nat>): Option<Cow> {
    if c.Some? then Some(Rebase(c.value, d)) else None
  }

  function MapSide(s: Option<RenameSide>, d: Option<nat>): Option<RenameSide> {
    if s.Some? then Some(RenameSide(Rebase(s.value.handle, d), Rebase(s.value.name, d))) else None
  }

  // `Some(d)` moves a borrow `d` bytes on; `None` takes ownership of it.
  function Rebase(c: Cow, d: Option<nat>): Cow {
    if d.Some? then MoveCow(c, d.value) else OwnCow(c)
  }

  function RebaseRaw(r: RawRecord, d: Option<nat>): RawRecord {
    (r.0, Rebase(r.1, d))
  }

  function RebaseRaws(rs: seq<RawRecord>, d: Option<nat>): seq<RawRecord> {
    seq(|rs|, i requires 0 <= i < |rs| => RebaseRaw(rs[i], d))
  }

  function RebaseEvent(ev: Event, d: Option<nat>): Event {
    ev.(dfidNameHandle := MapCow(ev.dfidNameHandle, d),
        dfidNameName := MapCow(ev.dfidNameName, d),
        selfHandle := MapCow(ev.selfHandle, d),
        renameSource := MapSide(ev.renameSource, d),
        renameTarget := MapSide(ev.renameTarget, d),
        unknownInfoRecords := RebaseRaws(ev.unknownInfoRecords, d))
  }

  function RebaseContent(c: Content, d: Option<nat>): Content {
    match c
    case Entry(fsid, handle, name) => Entry(fsid, Rebase(handle, d), Rebase(name, d))
    case Object(fsid, handle) => Object(fsid, Rebase(handle, d))
    case RenameFrom(fsid, handle, name) => RenameFrom(fsid, Rebase(handle, d), Rebase(name, d))
    case RenameTo(fsid, handle, name) => RenameTo(fsid, Rebase(handle, d), Rebase(name, d))
    case _ => c
  }

  function RebaseContents(cs: seq<Content>, d: Option<nat>): seq<Content> {
    seq(|cs|, i requires 0 <= i < |cs| => RebaseContent(cs[i], d))
  }

  // `FidEvent::into_owned`.
  function IntoOwned(ev: Event): Event {
    RebaseEvent(ev, None)
  }

  function RebaseOption(c: Option<Content>, d: Option<nat>): Option<Content> {
    if c.Some? then Some(RebaseContent(c.value, d)) else None
  }

  lemma {:induction false} PicksRebase(kind: Kind, cs: seq<Content>, d: Option<nat>)
    ensures FirstOf(kind, RebaseContents(cs, d)) == RebaseOption(FirstOf(kind, cs), d)
    ensures LastOf(kind, RebaseContents(cs, d)) == RebaseOption(LastOf(kind, cs), d)
  {
    if |cs| != 0 {
      var n := |cs| - 1;
      PicksRebase(kind, cs[..n], d);
      assert RebaseContents(cs, d)[..n] == RebaseContents(cs[..n], d);
      KindRebases(kind, cs[n], d);
    }
  }

  lemma KindRebases(kind: Kind, c: Content, d: Option<nat>)
    ensures Is(kind, RebaseContent(c, d)) == Is(kind, c)
  {
  }

  lemma {:induction false} PreservedRebases(cs: seq<Content>, raws: seq<RawRecord>, d: Option<nat>)
    requires |raws| == |cs|
    ensures Preserved(RebaseContents(cs, d), RebaseRaws(raws, d)) == RebaseRaws(Preserved(cs, raws), d)
  {
    if |cs| != 0 {
      var n := |cs| - 1;
      PreservedRebases(cs[..n], raws[..n], d);
      assert RebaseContents(cs, d)[..n] == RebaseContents(cs[..n], d);
      assert RebaseRaws(raws, d)[..n] == RebaseRaws(raws[..n], d);
      PicksRebase(EntryKind, cs[..n], d);
      PicksRebase(ProcessKind, cs[..n], d);
    }
  }

  function RebasePicks(p: Picks, d: Option<nat>): Picks {
    Picks(RebaseOption(p.identity, d), RebaseOption(p.entry, d), RebaseOption(p.own, d),
          RebaseOption(p.process, d), RebaseOption(p.fsError, d), RebaseOption(p.access, d),
          RebaseOption(p.mount, d), RebaseOption(p.from, d), RebaseOption(p.to, d))
  }

  lemma AllPicksRebase(cs: seq<Content>, d: Option<nat>)
    ensures PicksOf(RebaseContents(cs, d)) == RebasePicks(PicksOf(cs), d)
  {
    PicksRebase(Identity, cs, d);
    PicksRebase(EntryKind, cs, d);
    PicksRebase(ObjectKind, cs, d);
    PicksRebase(FromKind, cs, d);
    PicksRebase(ToKind, cs, d);
    PicksRebase(ProcessKind, cs, d);
    PicksRebase(ErrorKind, cs, d);
    PicksRebase(AccessKind, cs, d);
    PicksRebase(MountKind, cs, d);
  }

  lemma BuildRebases(mask: nat, pid: int, fd: int, p: Picks, unknown: seq<RawRecord>, d: Option<nat>)
    ensures RebaseEvent(Build(mask, pid, fd, p, unknown), d) ==
      Build(mask, pid, fd, RebasePicks(p, d), RebaseRaws(unknown, d))
  {
    hide Rebase, RebaseRaws;
  }

  // Only the kinds of the records decide which one a field is read from, so
  // interpreting commutes with taking ownership and with moving.
  lemma InterpretRebases(mask: nat, pid: int, fd: int, cs: seq<Content>, raws: seq<RawRecord>,
                         tail: seq<RawRecord>, d: Option<nat>)
    requires |raws| == |cs|
    ensures RebaseEvent(Interpret(mask, pid, fd, cs, raws, tail), d) ==
      Interpret(mask, pid, fd, RebaseContents(cs, d), RebaseRaws(raws, d), RebaseRaws(tail, d))
  {
    AllPicksRebase(cs, d);
    PreservedRebases(cs, raws, d);
    BuildRebases(mask, pid, fd, PicksOf(cs), Preserved(cs, raws) + tail, d);
    assert RebaseRaws(Preserved(cs, raws) + tail, d) ==
      RebaseRaws(Preserved(cs, raws), d) + RebaseRaws(tail, d);
  }
}
