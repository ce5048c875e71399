// The record area of one event: how it is cut into records, and the event those
// records amount to.
module Records {
  import opened Wrappers
  import opened Bytes
  import opened Wire
  import opened Events

  // A record that fits: its header is at `at`, its last byte before `end`.
  datatype Record = Record(infoType: byte, at: nat, end: nat)

  // The records of an area in order, the bytes from a header whose length cannot
  // be trusted, if the walk met one, and where the walk stopped.
  datatype Tiling = Tiling(records: seq<Record>, tail: Option<Record>, stop: nat)

  predicate Fits(r: Record, end: nat) {
    r.at + INFO_HEADER_SIZE <= r.end <= end
  }

  predicate AllFit(rs: seq<Record>, end: nat) {
    forall i :: 0 <= i < |rs| ==> Fits(rs[i], end)
  }

  function DeclaredLen(buf: seq<byte>, at: nat): nat
    requires at + INFO_HEADER_SIZE <= |buf|
  {
    LeValue(buf[at + 2..at + 4])
  }

  function Tile(buf: seq<byte>, at: nat, end: nat): (t: Tiling)
    requires at <= end <= |buf|
    ensures AllFit(t.records, end)
    ensures t.tail.Some? ==> Fits(t.tail.value, end)
    decreases end - at
  {
    if at + INFO_HEADER_SIZE > end then Tiling([], None, at)
    else
      var len := DeclaredLen(buf, at);
      if len < INFO_HEADER_SIZE || len > end - at then Tiling([], Some(Record(buf[at], at, end)), at)
      else
        var rest := Tile(buf, at + len, end);
        rest.(records := [Record(buf[at], at, at + len)] + rest.records)
  }

  // What the payload of a record says, or `Opaque` when the type is unknown or
  // the payload is too short for it.
  function ContentOf(buf: seq<byte>, r: Record): Content
    requires Fits(r, |buf|)
  {
    var at := r.at + INFO_HEADER_SIZE;
    var len := r.end - at;
    if r.infoType in NAMED_TYPES then NamedContent(buf, at, len, r.infoType)
    else if r.infoType in OBJECT_TYPES then ObjectContent(buf, at, len)
    else NumberContent(buf, at, len, r.infoType)
  }

  const OBJECT_TYPES: set<byte> := {TYPE_FID, TYPE_DFID}

  const NAMED_TYPES: set<byte> := {TYPE_DFID_NAME, TYPE_OLD_DFID_NAME, TYPE_NEW_DFID_NAME}

  function NamedContent(buf: seq<byte>, at: nat, len: nat, infoType: byte): Content {
    match SplitFsidHandleName(buf, at, len)
    case Some((fsid, handle, name)) =>
      if infoType == TYPE_DFID_NAME then Entry(fsid, handle, name)
      else if infoType == TYPE_OLD_DFID_NAME then RenameFrom(fsid, handle, name)
      else RenameTo(fsid, handle, name)
    case None => Opaque
  }

  function ObjectContent(buf: seq<byte>, at: nat, len: nat): Content {
    match SplitFsidHandle(buf, at, len)
    case Some((fsid, handle)) => Object(fsid, handle)
    case None => Opaque
  }

  function NumberContent(buf: seq<byte>, at: nat, len: nat, infoType: byte): Content {
    if infoType == TYPE_PIDFD then
      var number := ReadU32(buf, at, len);
      if number.Some? then Process(AsI32(number.value)) else Opaque
    else if infoType == TYPE_ERROR then
      var error, count := ReadU32(buf, at, len), ReadU32(buf, at + 4, SaturatingSub(len, 4));
      if error.Some? && count.Some? then FsError(AsI32(error.value), count.value) else Opaque
    else if infoType == TYPE_RANGE then
      var offset, count := ReadU64(buf, at, len), ReadU64(buf, at + 8, SaturatingSub(len, 8));
      if offset.Some? && count.Some? then Access(offset.value, count.value) else Opaque
    else if infoType == TYPE_MNT then
      var id := ReadU64(buf, at, len);
      if id.Some? then Mount(id.value) else Opaque
    else Opaque
  }

  function ContentsOf(buf: seq<byte>, rs: seq<Record>): seq<Content>
    requires AllFit(rs, |buf|)
  {
    seq(|rs|, i requires 0 <= i < |rs| => ContentOf(buf, rs[i]))
  }

  function RawOf(buf: seq<byte>, r: Record): RawRecord
    requires Fits(r, |buf|)
  {
    (r.infoType, Borrow(buf, r.at, r.end))
  }

  function RawsOf(buf: seq<byte>, rs: seq<Record>): seq<RawRecord>
    requires AllFit(rs, |buf|)
  {
    seq(|rs|, i requires 0 <= i < |rs| => RawOf(buf, rs[i]))
  }

  function TailOf(buf: seq<byte>, tail: Option<Record>): seq<RawRecord>
    requires tail.Some? ==> Fits(tail.value, |buf|)
  {
    if tail.Some? then [RawOf(buf, tail.value)] else []
  }

  // The event with header `meta` whose records lie in `from..end` of `buf`.
  function EventOf(buf: seq<byte>, meta: Meta, from: nat, end: nat): Event
    requires from <= end <= |buf|
  {
    var t := Tile(buf, from, end);
    Interpret(meta.mask, meta.pid, meta.fd, ContentsOf(buf, t.records), RawsOf(buf, t.records),
              TailOf(buf, t.tail))
  }

  // ----- A record's payload, said byte by byte. -----

  function I32At(p: seq<byte>, k: nat): int
    requires k + 4 <= |p|
  {
    PowersAreWords();
    AsI32(LeValue(p[k..k + 4]))
  }

  // An fsid and a file handle whole: eight bytes, then eight of a header that says how
  // many more there are, at most 128, and those.
  predicate HandleFits(p: seq<byte>) {
    |p| >= 16 && LeValue(p[8..12]) <= 128 && 16 + LeValue(p[8..12]) <= |p|
  }

  // The name is all of `raw`, or what comes before its first NUL.
  predicate IsNameIn(name: Name, raw: seq<byte>) {
    name <= raw && 0 !in name && (|name| < |raw| ==> raw[|name|] == 0)
  }

  // What a payload `p` lying at `at` says for its record's type. One that is too short
  // says nothing; bytes after what is read are ignored.
  ghost predicate NamedMeans(infoType: byte, p: seq<byte>, at: nat, c: Content) {
    if !HandleFits(p) then c.Opaque?
    else
      var end := 16 + LeValue(p[8..12]);
      && (infoType == 2 <==> c.Entry?) && (infoType == 10 <==> c.RenameFrom?) && (infoType == 12 <==> c.RenameTo?)
      && !c.Opaque? && Is(Identity, c) && !c.Object?
      && c.fsid == (I32At(p, 0), I32At(p, 4))
      && c.handle == Borrowed(at + 8, p[8..end])
      && c.name.Borrowed? && c.name.at == at + end && IsNameIn(c.name.bytes, p[end..])
  }

  ghost predicate ObjectMeans(p: seq<byte>, at: nat, c: Content) {
    if HandleFits(p)
    then c == Object((I32At(p, 0), I32At(p, 4)), Borrowed(at + 8, p[8..16 + LeValue(p[8..12])]))
    else c.Opaque?
  }

  ghost predicate NumberMeans(infoType: byte, p: seq<byte>, c: Content) {
    if infoType == 4 && |p| >= 4 then c == Process(I32At(p, 0))
    else if infoType == 5 && |p| >= 8 then c == FsError(I32At(p, 0), LeValue(p[4..8]))
    else if infoType == 6 && |p| >= 16 then c == Access(LeValue(p[0..8]), LeValue(p[8..16]))
    else if infoType == 7 && |p| >= 8 then c == Mount(LeValue(p[0..8]))
    else c.Opaque?
  }

  lemma FsidMeans(buf: seq<byte>, at: nat, end: nat)
    requires at <= end <= |buf|
    ensures ReadFsid(buf, at, end - at) ==
      if end - at >= 8 then Some((I32At(buf[at..end], 0), I32At(buf[at..end], 4))) else None
  {
    hide LeValue;
    if end - at >= 8 {
      SliceOfSlice(buf, at, end - at, 0, 4);
      SliceOfSlice(buf, at, end - at, 4, 4);
    }
  }

  lemma HandleMeans(buf: seq<byte>, at: nat, end: nat)
    requires at + 8 <= end <= |buf|
    ensures var p := buf[at..end];
      ReadFileHandle(buf, at + 8, end - at - 8) ==
        if HandleFits(p) then Some(Borrowed(at + 8, p[8..16 + LeValue(p[8..12])])) else None
  {
    hide LeValue;
    if end - at >= 12 {
      SliceOfSlice(buf, at, end - at, 8, 4);
      var n := LeValue(buf[at + 8..at + 12]);
      if 16 + n <= end - at {
        SliceOfSlice(buf, at, end - at, 8, 8 + n);
      }
    }
  }

  lemma SplitMeans(buf: seq<byte>, at: nat, end: nat)
    requires at <= end <= |buf|
    ensures var p := buf[at..end];
      SplitFsidHandle(buf, at, end - at) ==
        if HandleFits(p)
        then Some(((I32At(p, 0), I32At(p, 4)), Borrowed(at + 8, p[8..16 + LeValue(p[8..12])]))) else None
  {
    hide ReadFsid, ReadFileHandle, LeValue, I32At;
    FsidMeans(buf, at, end);
    if end - at >= 8 {
      HandleMeans(buf, at, end);
    }
  }

  lemma NameIsUntilNul(buf: seq<byte>, at: nat, end: nat)
    requires at <= end <= |buf|
    ensures var n := |UntilNul(buf[at..end])|;
      Borrow(buf, at, at + n) == Borrowed(at, UntilNul(buf[at..end]))
  {
    hide UntilNul;
    assert buf[at..end][..|UntilNul(buf[at..end])|] == UntilNul(buf[at..end]);
  }

  lemma NameMeans(buf: seq<byte>, at: nat, end: nat, infoType: byte)
    requires at <= end <= |buf| && infoType in NAMED_TYPES
    ensures NamedMeans(infoType, buf[at..end], at, NamedContent(buf, at, end - at, infoType))
    ensures ObjectMeans(buf[at..end], at, ObjectContent(buf, at, end - at))
  {
    hide SplitFsidHandle, LeValue, I32At, UntilNul;
    SplitMeans(buf, at, end);
    var p := buf[at..end];
    if HandleFits(p) {
      var skip := 16 + LeValue(p[8..12]);
      assert buf[at + skip..end] == p[skip..];
      assert |p[8..skip]| == skip - 8;
      NameIsUntilNul(buf, at + skip, end);
    }
  }

  lemma NumbersMean(buf: seq<byte>, at: nat, end: nat, infoType: byte)
    requires at <= end <= |buf|
    ensures NumberMeans(infoType, buf[at..end], NumberContent(buf, at, end - at, infoType))
  {
    hide LeValue, AsI32;
    var n := end - at;
    if n >= 4 {
      SliceOfSlice(buf, at, n, 0, 4);
    }
    if n >= 8 {
      SliceOfSlice(buf, at, n, 4, 4);
      SliceOfSlice(buf, at, n, 0, 8);
    }
    if n >= 16 {
      SliceOfSlice(buf, at, n, 8, 8);
    }
  }

  // What every record says, for every payload, well-formed or not.
  lemma ContentMeans(buf: seq<byte>, r: Record)
    requires Fits(r, |buf|)
    ensures var p, at, c := buf[r.at + 4..r.end], r.at + 4, ContentOf(buf, r);
      if r.infoType == 2 || r.infoType == 10 || r.infoType == 12 then NamedMeans(r.infoType, p, at, c)
      else if r.infoType == 1 || r.infoType == 3 then ObjectMeans(p, at, c)
      else NumberMeans(r.infoType, p, c)
  {
    hide NamedContent, ObjectContent, NumberContent, NamedMeans, ObjectMeans, NumberMeans;
    NameMeans(buf, r.at + 4, r.end, if r.infoType in NAMED_TYPES then r.infoType else 2);
    NumbersMean(buf, r.at + 4, r.end, r.infoType);
  }

  // ----- The tiling, said without a recursion. -----

  function StartOf(at: nat, rs: seq<Record>, k: nat): nat
    requires k <= |rs|
  {
    if k == 0 then at else rs[k - 1].end
  }

  // Records of their own declared length follow one another from `at` to `stop`;
  // what is left is too short for a header, or starts with one whose length is
  // below the header's own or past the end.
  ghost predicate Tiles(buf: seq<byte>, at: nat, end: nat, t: Tiling)
    requires at <= end <= |buf|
  {
    && t.stop == StartOf(at, t.records, |t.records|)
    && t.stop <= end
    && (forall k :: 0 <= k < |t.records| ==> IsRecordAt(buf, at, t.records, k))
    && (t.tail.None? ==> end - t.stop < INFO_HEADER_SIZE)
    && (t.tail.Some? ==>
          && t.stop + INFO_HEADER_SIZE <= end
          && t.tail.value == Record(buf[t.stop], t.stop, end)
          && !(INFO_HEADER_SIZE <= DeclaredLen(buf, t.stop) <= end - t.stop))
  }

  predicate IsRecordAt(buf: seq<byte>, at: nat, rs: seq<Record>, k: nat)
    requires k < |rs|
  {
    && Fits(rs[k], |buf|)
    && rs[k].at == StartOf(at, rs, k)
    && rs[k].infoType == buf[rs[k].at]
    && rs[k].end - rs[k].at == DeclaredLen(buf, rs[k].at)
  }

  lemma {:induction false} TileTiles(buf: seq<byte>, at: nat, end: nat)
    requires at <= end <= |buf|
    ensures Tiles(buf, at, end, Tile(buf, at, end))
    decreases end - at
  {
    var t := Tile(buf, at, end);
    if t.records != [] {
      var next := t.records[0].end;
      TileTiles(buf, next, end);
      PrependTiles(buf, at, end, t.records[0], Tile(buf, next, end));
    }
  }

  lemma PrependTiles(buf: seq<byte>, at: nat, end: nat, r: Record, rest: Tiling)
    requires at <= end <= |buf| && r.at == at && Fits(r, end)
    requires Tiles(buf, r.end, end, rest)
    requires r.infoType == buf[at] && r.end - at == DeclaredLen(buf, at)
    ensures Tiles(buf, at, end, rest.(records := [r] + rest.records))
  {
    var rs := [r] + rest.records;
    forall k | 0 <= k < |rs|
      ensures IsRecordAt(buf, at, rs, k)
    {
      if k != 0 {
        assert IsRecordAt(buf, r.end, rest.records, k - 1);
        assert rs[k] == rest.records[k - 1];
      }
    }
  }

  lemma {:induction false} TilingIsUnique(buf: seq<byte>, at: nat, end: nat, t: Tiling)
    requires at <= end <= |buf|
    requires Tiles(buf, at, end, t)
    ensures t == Tile(buf, at, end)
    decreases end - at
  {
    if t.records != [] {
      var first := t.records[0];
      assert IsRecordAt(buf, at, t.records, 0);
      StartsAscend(buf, at, end, t, 1);
      TailTiles(buf, at, end, t);
      var rest := t.(records := t.records[1..]);
      TilingIsUnique(buf, first.end, end, rest);
      assert t.records == [first] + rest.records;
    }
  }

  lemma TailTiles(buf: seq<byte>, at: nat, end: nat, t: Tiling)
    requires at <= end <= |buf| && Tiles(buf, at, end, t) && t.records != []
    requires t.records[0].end <= end
    ensures Tiles(buf, t.records[0].end, end, t.(records := t.records[1..]))
  {
    var first, rs := t.records[0], t.records[1..];
    forall k | 0 <= k < |rs|
      ensures IsRecordAt(buf, first.end, rs, k)
    {
      assert IsRecordAt(buf, at, t.records, k + 1);
      assert rs[k] == t.records[k + 1];
    }
  }

  // No record starts before the area or after where the walk stopped.
  lemma {:induction false} StartsAscend(buf: seq<byte>, at: nat, end: nat, t: Tiling, k: nat)
    requires at <= end <= |buf| && Tiles(buf, at, end, t) && k <= |t.records|
    ensures at <= StartOf(at, t.records, k) <= t.stop
    decreases |t.records| - k
  {
    StartsAfter(buf, at, end, t, k);
    if k < |t.records| {
      StartsAscend(buf, at, end, t, k + 1);
      assert IsRecordAt(buf, at, t.records, k);
    }
  }

  lemma {:induction false} StartsAfter(buf: seq<byte>, at: nat, end: nat, t: Tiling, k: nat)
    requires at <= end <= |buf| && Tiles(buf, at, end, t) && k <= |t.records|
    ensures at <= StartOf(at, t.records, k)
  {
    if k != 0 {
      StartsAfter(buf, at, end, t, k - 1);
      assert IsRecordAt(buf, at, t.records, k - 1);
    }
  }

  lemma RecordsLieWithin(buf: seq<byte>, at: nat, end: nat, t: Tiling)
    requires at <= end <= |buf| && Tiles(buf, at, end, t)
    ensures forall k :: 0 <= k < |t.records| ==> at <= t.records[k].at && Fits(t.records[k], end)
    ensures at <= t.stop
  {
    forall k | 0 <= k < |t.records|
      ensures at <= t.records[k].at && Fits(t.records[k], end)
    {
      StartsAscend(buf, at, end, t, k);
      StartsAscend(buf, at, end, t, k + 1);
      assert IsRecordAt(buf, at, t.records, k);
    }
    StartsAfter(buf, at, end, t, |t.records|);
  }

  // ----- The event, said with positions. -----

  ghost predicate IsFirst(kind: Kind, cs: seq<Content>, i: int) {
    0 <= i < |cs| && Is(kind, cs[i]) && forall j :: 0 <= j < i ==> !Is(kind, cs[j])
  }

  ghost predicate IsLast(kind: Kind, cs: seq<Content>, i: int) {
    0 <= i < |cs| && Is(kind, cs[i]) && forall j :: i < j < |cs| ==> !Is(kind, cs[j])
  }

  predicate NoneIs(kind: Kind, cs: seq<Content>) {
    forall j :: 0 <= j < |cs| ==> !Is(kind, cs[j])
  }

  // Which record each field is read from.
  ghost predicate FieldsRead(ev: Event, cs: seq<Content>) {
    HandlesRead(ev, cs) && SidesRead(ev, cs) && NumbersRead(ev, cs)
  }

  ghost predicate HandlesRead(ev: Event, cs: seq<Content>) {
    && (forall i :: IsFirst(Identity, cs, i) ==> ev.fsid == Some(cs[i].fsid))
    && (forall i :: IsFirst(EntryKind, cs, i) ==>
          ev.dfidNameHandle == Some(cs[i].handle) && ev.dfidNameName == Some(cs[i].name))
    && (forall i :: IsLast(ObjectKind, cs, i) ==> ev.selfHandle == Some(cs[i].handle))
  }

  ghost predicate SidesRead(ev: Event, cs: seq<Content>) {
    && (forall i :: IsLast(FromKind, cs, i) ==> ev.renameSource == Some(RenameSide(cs[i].handle, cs[i].name)))
    && (forall i :: IsLast(ToKind, cs, i) ==> ev.renameTarget == Some(RenameSide(cs[i].handle, cs[i].name)))
  }

  ghost predicate NumbersRead(ev: Event, cs: seq<Content>) {
    && (forall i :: IsFirst(ProcessKind, cs, i) ==> ev.pidfd == Unavailable(cs[i].number))
    && (forall i :: IsLast(ErrorKind, cs, i) ==> ev.fsError == Some((cs[i].error, cs[i].count)))
    && (forall i :: IsLast(AccessKind, cs, i) ==> ev.accessRange == Some((cs[i].offset, cs[i].length)))
    && (forall i :: IsLast(MountKind, cs, i) ==> ev.mntId == Some(cs[i].id))
  }

  // A field for which there is no record says nothing.
  ghost predicate FieldsEmpty(ev: Event, cs: seq<Content>) {
    && (NoneIs(Identity, cs) ==> ev.fsid.None?)
    && (NoneIs(EntryKind, cs) ==> ev.dfidNameHandle.None? && ev.dfidNameName.None?)
    && (NoneIs(ProcessKind, cs) ==> ev.pidfd.Absent?)
    && (NoneIs(ObjectKind, cs) ==> ev.selfHandle.None?)
    && (NoneIs(FromKind, cs) ==> ev.renameSource.None?)
    && (NoneIs(ToKind, cs) ==> ev.renameTarget.None?)
    && (NoneIs(ErrorKind, cs) ==> ev.fsError.None?)
    && (NoneIs(AccessKind, cs) ==> ev.accessRange.None?)
    && (NoneIs(MountKind, cs) ==> ev.mntId.None?)
  }

  lemma PickIs(kind: Kind, cs: seq<Content>, i: int)
    ensures IsFirst(kind, cs, i) ==> FirstOf(kind, cs) == Some(cs[i])
    ensures IsLast(kind, cs, i) ==> LastOf(kind, cs) == Some(cs[i])
    ensures NoneIs(kind, cs) ==> FirstOf(kind, cs).None? && LastOf(kind, cs).None?
  {
    hide Is, FirstOf, LastOf;
    FirstOfMeans(kind, cs);
    LastOfMeans(kind, cs);
    if IsFirst(kind, cs, i) {
      var k :| 0 <= k < |cs| && cs[k] == FirstOf(kind, cs).value && Is(kind, cs[k])
               && forall j :: 0 <= j < k ==> !Is(kind, cs[j]);
      assert k == i;
    }
    if IsLast(kind, cs, i) {
      var k :| 0 <= k < |cs| && cs[k] == LastOf(kind, cs).value && Is(kind, cs[k])
               && forall j :: k < j < |cs| ==> !Is(kind, cs[j]);
      assert k == i;
    }
  }

  lemma InterpretReads(meta: Meta, cs: seq<Content>, raws: seq<RawRecord>, tail: seq<RawRecord>)
    requires |raws| == |cs|
    ensures var ev := Interpret(meta.mask, meta.pid, meta.fd, cs, raws, tail);
      FieldsRead(ev, cs) && FieldsEmpty(ev, cs)
  {
    hide FirstOf, LastOf, Preserved, IsFirst, IsLast, NoneIs;
    PicksAre(Identity, cs);
    PicksAre(EntryKind, cs);
    PicksAre(ProcessKind, cs);
    PicksAre(ObjectKind, cs);
    PicksAre(FromKind, cs);
    PicksAre(ToKind, cs);
    PicksAre(ErrorKind, cs);
    PicksAre(AccessKind, cs);
    PicksAre(MountKind, cs);
  }

  lemma PicksAre(kind: Kind, cs: seq<Content>)
    ensures forall i :: IsFirst(kind, cs, i) ==> 0 <= i < |cs| && Is(kind, cs[i]) && FirstOf(kind, cs) == Some(cs[i])
    ensures forall i :: IsLast(kind, cs, i) ==> 0 <= i < |cs| && Is(kind, cs[i]) && LastOf(kind, cs) == Some(cs[i])
    ensures NoneIs(kind, cs) ==> FirstOf(kind, cs).None? && LastOf(kind, cs).None?
  {
    forall i | IsFirst(kind, cs, i)
      ensures FirstOf(kind, cs) == Some(cs[i])
    {
      PickIs(kind, cs, i);
    }
    forall i | IsLast(kind, cs, i)
      ensures LastOf(kind, cs) == Some(cs[i])
    {
      PickIs(kind, cs, i);
    }
    PickIs(kind, cs, 0);
  }

  // What the record loop computes, for every record area: the records tile it up to
  // slack or one untrustworthy tail; each field is read from the first or the last
  // record of its kind; and what is preserved is, in order and byte for byte, every
  // record not understood or repeating a first one, and then the tail.
  lemma RecordLoopSpec(buf: seq<byte>, meta: Meta, from: nat, end: nat) returns (at: seq<nat>)
    requires from <= end <= |buf|
    ensures var t, ev := Tile(buf, from, end), EventOf(buf, meta, from, end);
      var cs, raws := ContentsOf(buf, t.records), RawsOf(buf, t.records);
      && Tiles(buf, from, end, t)
      && FieldsRead(ev, cs) && FieldsEmpty(ev, cs)
      && KeptList(cs, at) && (forall k :: 0 <= k < |at| ==> at[k] < |raws|)
      && ev.unknownInfoRecords == At(raws, at) +
           (if t.tail.Some? then [(t.tail.value.infoType, Borrowed(t.tail.value.at, buf[t.tail.value.at..end]))] else [])
      && forall k :: 0 <= k < |raws| ==>
           raws[k] == (t.records[k].infoType, Borrowed(t.records[k].at, buf[t.records[k].at..t.records[k].end]))
  {
    hide Tile, ContentOf, FieldsRead, FieldsEmpty, KeptList, Preserved, PicksOf;
    TileTiles(buf, from, end);
    var t := Tile(buf, from, end);
    var cs, raws := ContentsOf(buf, t.records), RawsOf(buf, t.records);
    InterpretReads(meta, cs, raws, TailOf(buf, t.tail));
    at := PreservedIsExact(cs, raws);
  }

  // ----- An event depends only on its own bytes. -----

  function MoveRecord(r: Record, d: nat): Record {
    Record(r.infoType, r.at + d, r.end + d)
  }

  function MoveRecords(rs: seq<Record>, d: nat): seq<Record> {
    seq(|rs|, i requires 0 <= i < |rs| => MoveRecord(rs[i], d))
  }

  function MoveTiling(t: Tiling, d: nat): Tiling {
    Tiling(MoveRecords(t.records, d),
           if t.tail.Some? then Some(MoveRecord(t.tail.value, d)) else None,
           t.stop + d)
  }

  lemma HeaderMoves(c: seq<byte>, b: seq<byte>, d: nat, at: nat, n: nat)
    requires SameBytes(c, at, b, at + d, n) && INFO_HEADER_SIZE <= n
    ensures c[at] == b[at + d] && DeclaredLen(c, at) == DeclaredLen(b, at + d)
  {
    hide LeValue;
    SameByteAt(c, at, b, at + d, n, 0);
    SameWithin(c, at, b, at + d, n, 2, 2);
  }

  lemma MoveEmpty(t: Tiling, d: nat)
    requires t.records == []
    ensures MoveTiling(t, d) == Tiling([], if t.tail.Some? then Some(MoveRecord(t.tail.value, d)) else None, t.stop + d)
  {
  }

  lemma PrependMoves(first: Record, rest: Tiling, d: nat)
    ensures MoveTiling(rest.(records := [first] + rest.records), d) ==
      MoveTiling(rest, d).(records := [MoveRecord(first, d)] + MoveTiling(rest, d).records)
  {
    assert MoveRecords([first] + rest.records, d) == [MoveRecord(first, d)] + MoveRecords(rest.records, d);
  }

  lemma SameFits(c: seq<byte>, b: seq<byte>, d: nat, at: nat, end: nat)
    requires at <= end && SameBytes(c, at, b, at + d, end - at)
    ensures end <= |c| && end + d <= |b|
  {
  }

  lemma {:induction false} TileMoves(c: seq<byte>, b: seq<byte>, d: nat, at: nat, end: nat)
    requires at <= end && SameBytes(c, at, b, at + d, end - at)
    ensures Tile(b, at + d, end + d) == MoveTiling(Tile(c, at, end), d)
    decreases end - at
  {
    hide DeclaredLen, MoveTiling, SameBytes;
    SameFits(c, b, d, at, end);
    if at + INFO_HEADER_SIZE > end {
      MoveEmpty(Tile(c, at, end), d);
    } else {
      HeaderMoves(c, b, d, at, end - at);
      var len := DeclaredLen(c, at);
      if len < INFO_HEADER_SIZE || len > end - at {
        MoveEmpty(Tile(c, at, end), d);
      } else {
        SameWithin(c, at, b, at + d, end - at, len, end - at - len);
        TileMoves(c, b, d, at + len, end);
        PrependMoves(Record(c[at], at, at + len), Tile(c, at + len, end), d);
      }
    }
  }

  lemma NamedContentMoves(c: seq<byte>, b: seq<byte>, d: nat, at: nat, len: nat, infoType: byte)
    requires SameBytes(c, at, b, at + d, len)
    ensures NamedContent(b, at + d, len, infoType) == RebaseContent(NamedContent(c, at, len, infoType), Some(d))
  {
    hide SplitFsidHandleName;
    FsidHandleNameIsLocal(c, b, d, at, len);
  }

  lemma ObjectContentMoves(c: seq<byte>, b: seq<byte>, d: nat, at: nat, len: nat)
    requires SameBytes(c, at, b, at + d, len)
    ensures ObjectContent(b, at + d, len) == RebaseContent(ObjectContent(c, at, len), Some(d))
  {
    hide SplitFsidHandle;
    FsidHandleIsLocal(c, b, d, at, len);
  }

  lemma NumberContentMoves(c: seq<byte>, b: seq<byte>, d: nat, at: nat, len: nat, infoType: byte)
    requires SameBytes(c, at, b, at + d, len)
    ensures NumberContent(b, at + d, len, infoType) == RebaseContent(NumberContent(c, at, len, infoType), Some(d))
  {
    hide ReadU32, ReadU64, AsI32, SaturatingSub, Pow256;
    PairsAreLocal(c, b, d, at, len);
  }

  lemma FitsBoth(c: seq<byte>, b: seq<byte>, d: nat, r: Record)
    requires r.at + INFO_HEADER_SIZE <= r.end && SameBytes(c, r.at, b, r.at + d, r.end - r.at)
    ensures Fits(r, |c|) && Fits(MoveRecord(r, d), |b|)
  {
  }

  lemma ContentMoves(c: seq<byte>, b: seq<byte>, d: nat, r: Record)
    requires r.at + INFO_HEADER_SIZE <= r.end
    requires SameBytes(c, r.at, b, r.at + d, r.end - r.at)
    ensures ContentOf(b, MoveRecord(r, d)) == RebaseContent(ContentOf(c, r), Some(d))
  {
    hide NamedContent, ObjectContent, NumberContent, RebaseContent, SameBytes;
    var at, len := r.at + INFO_HEADER_SIZE, r.end - r.at - INFO_HEADER_SIZE;
    SameWithin(c, r.at, b, r.at + d, r.end - r.at, INFO_HEADER_SIZE, len);
    FitsBoth(c, b, d, r);
    if r.infoType in NAMED_TYPES {
      NamedContentMoves(c, b, d, at, len, r.infoType);
    } else if r.infoType in OBJECT_TYPES {
      ObjectContentMoves(c, b, d, at, len);
    } else {
      NumberContentMoves(c, b, d, at, len, r.infoType);
    }
  }

  lemma PairsAreLocal(c: seq<byte>, b: seq<byte>, d: nat, at: nat, len: nat)
    requires SameBytes(c, at, b, at + d, len)
    ensures ReadU32(c, at, len) == ReadU32(b, at + d, len)
    ensures ReadU64(c, at, len) == ReadU64(b, at + d, len)
    ensures ReadU32(c, at + 4, SaturatingSub(len, 4)) == ReadU32(b, at + d + 4, SaturatingSub(len, 4))
    ensures ReadU64(c, at + 8, SaturatingSub(len, 8)) == ReadU64(b, at + d + 8, SaturatingSub(len, 8))
  {
    hide LeValue;
    WordsAreLocal(c, b, d, at, len);
    if len >= 4 {
      SameWithin(c, at, b, at + d, len, 4, len - 4);
      WordsAreLocal(c, b, d, at + 4, len - 4);
    }
    if len >= 8 {
      SameWithin(c, at, b, at + d, len, 8, len - 8);
      WordsAreLocal(c, b, d, at + 8, len - 8);
    }
  }

  lemma RawMoves(c: seq<byte>, b: seq<byte>, d: nat, r: Record)
    requires r.at + INFO_HEADER_SIZE <= r.end
    requires SameBytes(c, r.at, b, r.at + d, r.end - r.at)
    ensures RawOf(b, MoveRecord(r, d)) == RebaseRaw(RawOf(c, r), Some(d))
  {
  }

  lemma AllMove(c: seq<byte>, b: seq<byte>, d: nat, from: nat, end: nat, rs: seq<Record>)
    requires from <= end && SameBytes(c, from, b, from + d, end - from)
    requires AllFit(rs, end) && forall k :: 0 <= k < |rs| ==> from <= rs[k].at
    ensures ContentsOf(b, MoveRecords(rs, d)) == RebaseContents(ContentsOf(c, rs), Some(d))
    ensures RawsOf(b, MoveRecords(rs, d)) == RebaseRaws(RawsOf(c, rs), Some(d))
  {
    hide ContentOf, RawOf, RebaseContent, RebaseRaw, SameBytes;
    var moved := MoveRecords(rs, d);
    forall k | 0 <= k < |rs|
      ensures Fits(rs[k], |c|) && Fits(moved[k], |b|)
      ensures ContentOf(b, moved[k]) == RebaseContent(ContentOf(c, rs[k]), Some(d))
      ensures RawOf(b, moved[k]) == RebaseRaw(RawOf(c, rs[k]), Some(d))
    {
      SameWithin(c, from, b, from + d, end - from, rs[k].at - from, rs[k].end - rs[k].at);
      FitsBoth(c, b, d, rs[k]);
      ContentMoves(c, b, d, rs[k]);
      RawMoves(c, b, d, rs[k]);
    }
    assert ContentsOf(b, moved) == RebaseContents(ContentsOf(c, rs), Some(d));
    assert RawsOf(b, moved) == RebaseRaws(RawsOf(c, rs), Some(d));
  }

  lemma EventMoves(c: seq<byte>, b: seq<byte>, d: nat, meta: Meta, from: nat, end: nat)
    requires from <= end && SameBytes(c, from, b, from + d, end - from)
    ensures EventOf(b, meta, from + d, end + d) == RebaseEvent(EventOf(c, meta, from, end), Some(d))
  {
    var t := Tile(c, from, end);
    TileMoves(c, b, d, from, end);
    TileTiles(c, from, end);
    RecordsLieWithin(c, from, end, t);
    AllMove(c, b, d, from, end, t.records);
    TailMoves(c, b, d, from, end, t);
    InterpretRebases(meta.mask, meta.pid, meta.fd, ContentsOf(c, t.records), RawsOf(c, t.records),
                     TailOf(c, t.tail), Some(d));
  }

  lemma TailMoves(c: seq<byte>, b: seq<byte>, d: nat, from: nat, end: nat, t: Tiling)
    requires from <= end && SameBytes(c, from, b, from + d, end - from)
    requires Tiles(c, from, end, t) && from <= t.stop
    ensures TailOf(b, MoveTiling(t, d).tail) == RebaseRaws(TailOf(c, t.tail), Some(d))
  {
    if t.tail.Some? {
      var r := t.tail.value;
      SameWithin(c, from, b, from + d, end - from, r.at - from, r.end - r.at);
      RawMoves(c, b, d, r);
    }
  }

  // ----- Everything an event borrows lies inside it. -----

  predicate Inside(c: Cow, buf: seq<byte>, lo: nat, hi: nat) {
    && c.Borrowed?
    && lo <= c.at && c.at + |c.bytes| <= hi <= |buf|
    && c.bytes == buf[c.at..c.at + |c.bytes|]
  }

  predicate ContentInside(c: Content, buf: seq<byte>, lo: nat, hi: nat) {
    && (Is(Identity, c) ==> Inside(c.handle, buf, lo, hi))
    && (c.Entry? || c.RenameFrom? || c.RenameTo? ==> Inside(c.name, buf, lo, hi))
  }

  predicate SideInside(s: Option<RenameSide>, buf: seq<byte>, lo: nat, hi: nat) {
    s.Some? ==> Inside(s.value.handle, buf, lo, hi) && Inside(s.value.name, buf, lo, hi)
  }

  predicate EventInside(ev: Event, buf: seq<byte>, lo: nat, hi: nat) {
    && (ev.dfidNameHandle.Some? ==> Inside(ev.dfidNameHandle.value, buf, lo, hi))
    && (ev.dfidNameName.Some? ==> Inside(ev.dfidNameName.value, buf, lo, hi))
    && (ev.selfHandle.Some? ==> Inside(ev.selfHandle.value, buf, lo, hi))
    && SideInside(ev.renameSource, buf, lo, hi)
    && SideInside(ev.renameTarget, buf, lo, hi)
    && forall i :: 0 <= i < |ev.unknownInfoRecords| ==> Inside(ev.unknownInfoRecords[i].1, buf, lo, hi)
  }

  lemma NamedIsInside(buf: seq<byte>, at: nat, end: nat, infoType: byte, lo: nat, hi: nat)
    requires lo <= at <= end <= hi <= |buf|
    ensures ContentInside(NamedContent(buf, at, end - at, infoType), buf, lo, hi)
    ensures ContentInside(ObjectContent(buf, at, end - at), buf, lo, hi)
  {
    hide ReadFsid, ReadFileHandle, UntilNul;
  }

  lemma NumberIsInside(buf: seq<byte>, at: nat, end: nat, infoType: byte, lo: nat, hi: nat)
    requires at <= end
    ensures ContentInside(NumberContent(buf, at, end - at, infoType), buf, lo, hi)
  {
    hide ReadU32, ReadU64, AsI32;
  }

  lemma ContentIsInside(buf: seq<byte>, r: Record, lo: nat, hi: nat)
    requires Fits(r, hi) && lo <= r.at && hi <= |buf|
    ensures ContentInside(ContentOf(buf, r), buf, lo, hi)
    ensures Inside(RawOf(buf, r).1, buf, lo, hi)
  {
    hide NamedContent, ObjectContent, NumberContent, ContentInside;
    NamedIsInside(buf, r.at + INFO_HEADER_SIZE, r.end, r.infoType, lo, hi);
    NumberIsInside(buf, r.at + INFO_HEADER_SIZE, r.end, r.infoType, lo, hi);
  }

  lemma PickIsInside(kind: Kind, cs: seq<Content>, buf: seq<byte>, lo: nat, hi: nat)
    requires forall i :: 0 <= i < |cs| ==> ContentInside(cs[i], buf, lo, hi)
    ensures FirstOf(kind, cs).Some? ==> ContentInside(FirstOf(kind, cs).value, buf, lo, hi)
    ensures LastOf(kind, cs).Some? ==> ContentInside(LastOf(kind, cs).value, buf, lo, hi)
  {
    FirstOfMeans(kind, cs);
    LastOfMeans(kind, cs);
  }

  lemma {:induction false} PreservedAreInside(cs: seq<Content>, raws: seq<RawRecord>, buf: seq<byte>, lo: nat, hi: nat)
    requires |raws| == |cs|
    requires forall i :: 0 <= i < |raws| ==> Inside(raws[i].1, buf, lo, hi)
    ensures forall i :: 0 <= i < |Preserved(cs, raws)| ==> Inside(Preserved(cs, raws)[i].1, buf, lo, hi)
  {
    if |cs| != 0 {
      PreservedAreInside(cs[..|cs| - 1], raws[..|cs| - 1], buf, lo, hi);
    }
  }

  lemma EventIsInside(buf: seq<byte>, meta: Meta, from: nat, end: nat)
    requires from <= end <= |buf|
    ensures EventInside(EventOf(buf, meta, from, end), buf, from, end)
  {
    var t := Tile(buf, from, end);
    TileTiles(buf, from, end);
    RecordsLieWithin(buf, from, end, t);
    var cs, raws := ContentsOf(buf, t.records), RawsOf(buf, t.records);
    forall k | 0 <= k < |t.records|
      ensures ContentInside(cs[k], buf, from, end) && Inside(raws[k].1, buf, from, end)
    {
      ContentIsInside(buf, t.records[k], from, end);
    }
    InterpretIsInside(meta, cs, raws, TailOf(buf, t.tail), buf, from, end);
  }

  lemma InterpretIsInside(meta: Meta, cs: seq<Content>, raws: seq<RawRecord>, tail: seq<RawRecord>,
                          buf: seq<byte>, lo: nat, hi: nat)
    requires |raws| == |cs|
    requires forall i :: 0 <= i < |cs| ==> ContentInside(cs[i], buf, lo, hi)
    requires forall i :: 0 <= i < |raws| ==> Inside(raws[i].1, buf, lo, hi)
    requires forall i :: 0 <= i < |tail| ==> Inside(tail[i].1, buf, lo, hi)
    ensures EventInside(Interpret(meta.mask, meta.pid, meta.fd, cs, raws, tail), buf, lo, hi)
  {
    PickIsInside(EntryKind, cs, buf, lo, hi);
    PickIsInside(ObjectKind, cs, buf, lo, hi);
    PickIsInside(FromKind, cs, buf, lo, hi);
    PickIsInside(ToKind, cs, buf, lo, hi);
    PreservedAreInside(cs, raws, buf, lo, hi);
  }
}
