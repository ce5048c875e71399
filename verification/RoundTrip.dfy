// What a kernel may write, as abstract events, their encoding, and the theorem
// that parsing the encoding yields exactly those events.
module RoundTrip {
  import opened Wrappers
  import opened Bytes
  import opened Wire
  import opened Events
  import opened Records
  import opened EventWalk

  datatype FileHandle = FileHandle(handleType: int, payload: seq<byte>)

  datatype Info =
    | FidInfo(fsid: Fsid, handle: FileHandle)
    | DfidInfo(fsid: Fsid, handle: FileHandle)
    | DfidNameInfo(fsid: Fsid, handle: FileHandle, name: Name, ending: seq<byte>)
    | OldNameInfo(fsid: Fsid, handle: FileHandle, name: Name, ending: seq<byte>)
    | NewNameInfo(fsid: Fsid, handle: FileHandle, name: Name, ending: seq<byte>)
    | PidfdInfo(number: int)
    | ErrorInfo(error: int, count: nat)
    | RangeInfo(offset: nat, length: nat)
    | MntInfo(id: nat)
    | OtherInfo(infoType: byte, payload: seq<byte>)

  // `extension` is what a newer kernel adds to the header, `slack` the bytes after
  // the last record that are too few to be one.
  datatype KernelEvent = KernelEvent(mask: nat, fd: int, pid: int, reserved: byte,
                                     extension: seq<byte>, infos: seq<Info>, slack: seq<byte>)

  const KNOWN_TYPES: set<byte> :=
    {TYPE_FID, TYPE_DFID_NAME, TYPE_DFID, TYPE_PIDFD, TYPE_ERROR, TYPE_RANGE, TYPE_MNT,
     TYPE_OLD_DFID_NAME, TYPE_NEW_DFID_NAME}

  function TypeOf(info: Info): byte {
    match info
    case FidInfo(_, _) => TYPE_FID
    case DfidInfo(_, _) => TYPE_DFID
    case DfidNameInfo(_, _, _, _) => TYPE_DFID_NAME
    case OldNameInfo(_, _, _, _) => TYPE_OLD_DFID_NAME
    case NewNameInfo(_, _, _, _) => TYPE_NEW_DFID_NAME
    case PidfdInfo(_) => TYPE_PIDFD
    case ErrorInfo(_, _) => TYPE_ERROR
    case RangeInfo(_, _) => TYPE_RANGE
    case MntInfo(_) => TYPE_MNT
    case OtherInfo(infoType, _) => infoType
  }

  predicate HandleOk(h: FileHandle) {
    IsI32(h.handleType) && |h.payload| <= MAX_HANDLE_SZ
  }

  predicate FsidOk(fsid: Fsid) {
    IsI32(fsid.0) && IsI32(fsid.1)
  }

  // A name holds no NUL. After it comes nothing at all, or a NUL and any padding.
  predicate NameOk(name: Name, ending: seq<byte>) {
    0 !in name && (ending == [] || ending[0] == 0)
  }

  // The values fit the fields that carry them, names are as said, and an unknown
  // record has an unknown type.
  predicate ValuesOk(info: Info) {
    match info
    case FidInfo(fsid, handle) => FsidOk(fsid) && HandleOk(handle)
    case DfidInfo(fsid, handle) => FsidOk(fsid) && HandleOk(handle)
    case DfidNameInfo(fsid, handle, name, ending) => FsidOk(fsid) && HandleOk(handle) && NameOk(name, ending)
    case OldNameInfo(fsid, handle, name, ending) => FsidOk(fsid) && HandleOk(handle) && NameOk(name, ending)
    case NewNameInfo(fsid, handle, name, ending) => FsidOk(fsid) && HandleOk(handle) && NameOk(name, ending)
    case PidfdInfo(number) => IsI32(number)
    case ErrorInfo(error, count) => IsI32(error) && count < TWO_32
    case RangeInfo(offset, length) => offset < TWO_32 * TWO_32 && length < TWO_32 * TWO_32
    case MntInfo(id) => id < TWO_32 * TWO_32
    case OtherInfo(infoType, _) => infoType !in KNOWN_TYPES
  }

  function EncodeFsid(fsid: Fsid): (s: seq<byte>)
    requires FsidOk(fsid)
    ensures |s| == FSID_SIZE
  {
    LeBytes(AsU32(fsid.0), 4) + LeBytes(AsU32(fsid.1), 4)
  }

  function EncodeHandle(h: FileHandle): (s: seq<byte>)
    requires HandleOk(h)
    ensures |s| == FILE_HANDLE_HEADER_SIZE + |h.payload|
  {
    LeBytes(|h.payload|, 4) + (LeBytes(AsU32(h.handleType), 4) + h.payload)
  }

  function EncodeNamed(fsid: Fsid, h: FileHandle, name: Name, ending: seq<byte>): seq<byte>
    requires FsidOk(fsid) && HandleOk(h)
  {
    EncodeFsid(fsid) + (EncodeHandle(h) + (name + ending))
  }

  function Payload(info: Info): seq<byte>
    requires ValuesOk(info)
  {
    match info
    case FidInfo(fsid, handle) => EncodeFsid(fsid) + EncodeHandle(handle)
    case DfidInfo(fsid, handle) => EncodeFsid(fsid) + EncodeHandle(handle)
    case DfidNameInfo(fsid, handle, name, ending) => EncodeNamed(fsid, handle, name, ending)
    case OldNameInfo(fsid, handle, name, ending) => EncodeNamed(fsid, handle, name, ending)
    case NewNameInfo(fsid, handle, name, ending) => EncodeNamed(fsid, handle, name, ending)
    case PidfdInfo(number) => LeBytes(AsU32(number), 4)
    case ErrorInfo(error, count) => LeBytes(AsU32(error), 4) + LeBytes(count, 4)
    case RangeInfo(offset, length) => LeBytes(offset, 8) + LeBytes(length, 8)
    case MntInfo(id) => LeBytes(id, 8)
    case OtherInfo(_, payload) => payload
  }

  predicate InfoOk(info: Info) {
    ValuesOk(info) && INFO_HEADER_SIZE + |Payload(info)| < 0x1_0000
  }

  function EncodeInfo(info: Info): (s: seq<byte>)
    requires InfoOk(info)
    ensures |s| == INFO_HEADER_SIZE + |Payload(info)|
  {
    [TypeOf(info), 0] + (LeBytes(INFO_HEADER_SIZE + |Payload(info)|, 2) + Payload(info))
  }

  predicate InfosOk(infos: seq<Info>) {
    forall i :: 0 <= i < |infos| ==> InfoOk(infos[i])
  }

  function EncodeInfos(infos: seq<Info>): seq<byte>
    requires InfosOk(infos)
  {
    if |infos| == 0 then [] else EncodeInfo(infos[0]) + EncodeInfos(infos[1..])
  }

  predicate EventOk(e: KernelEvent) {
    && e.mask < TWO_32 * TWO_32 && IsI32(e.fd) && IsI32(e.pid)
    && METADATA_SIZE + |e.extension| < 0x1_0000
    && InfosOk(e.infos) && |e.slack| < INFO_HEADER_SIZE
    && METADATA_SIZE + |e.extension| + |Area(e)| < TWO_32
  }

  function Area(e: KernelEvent): seq<byte>
    requires InfosOk(e.infos)
  {
    EncodeInfos(e.infos) + e.slack
  }

  function EncodeEvent(e: KernelEvent): (s: seq<byte>)
    requires EventOk(e)
    ensures |s| == METADATA_SIZE + |e.extension| + |Area(e)|
  {
    LeBytes(METADATA_SIZE + |e.extension| + |Area(e)|, 4)
    + ([METADATA_VERSION, e.reserved]
       + (LeBytes(METADATA_SIZE + |e.extension|, 2)
          + (LeBytes(e.mask, 8)
             + (LeBytes(AsU32(e.fd), 4)
                + (LeBytes(AsU32(e.pid), 4) + (e.extension + Area(e)))))))
  }

  predicate EventsOk(es: seq<KernelEvent>) {
    forall i :: 0 <= i < |es| ==> EventOk(es[i])
  }

  function EncodeEvents(es: seq<KernelEvent>): seq<byte>
    requires EventsOk(es)
  {
    if |es| == 0 then [] else EncodeEvent(es[0]) + EncodeEvents(es[1..])
  }

  // ----- What the events mean. -----

  function ContentMeant(info: Info): Content
    requires ValuesOk(info)
  {
    match info
    case FidInfo(fsid, handle) => Object(fsid, Owned(EncodeHandle(handle)))
    case DfidInfo(fsid, handle) => Object(fsid, Owned(EncodeHandle(handle)))
    case DfidNameInfo(fsid, handle, name, _) => Entry(fsid, Owned(EncodeHandle(handle)), Owned(name))
    case OldNameInfo(fsid, handle, name, _) => RenameFrom(fsid, Owned(EncodeHandle(handle)), Owned(name))
    case NewNameInfo(fsid, handle, name, _) => RenameTo(fsid, Owned(EncodeHandle(handle)), Owned(name))
    case PidfdInfo(number) => Process(number)
    case ErrorInfo(error, count) => FsError(error, count)
    case RangeInfo(offset, length) => Access(offset, length)
    case MntInfo(id) => Mount(id)
    case OtherInfo(_, _) => Opaque
  }

  function RawMeant(info: Info): RawRecord
    requires InfoOk(info)
  {
    (TypeOf(info), Owned(EncodeInfo(info)))
  }

  function ContentsMeant(infos: seq<Info>): seq<Content>
    requires InfosOk(infos)
  {
    seq(|infos|, i requires 0 <= i < |infos| => ContentMeant(infos[i]))
  }

  function RawsMeant(infos: seq<Info>): seq<RawRecord>
    requires InfosOk(infos)
  {
    seq(|infos|, i requires 0 <= i < |infos| => RawMeant(infos[i]))
  }

  function Meaning(e: KernelEvent): Event
    requires EventOk(e)
  {
    Interpret(e.mask, e.pid, e.fd, ContentsMeant(e.infos), RawsMeant(e.infos), [])
  }

  // ----- Fields survive. -----

  lemma Sliced(p: seq<byte>, x: seq<byte>, q: seq<byte>)
    ensures (p + (x + q))[|p|..|p| + |x|] == x
    ensures (p + (x + q))[|p| + |x|..] == q
  {
  }

  lemma FsidSurvives(fsid: Fsid, rest: seq<byte>)
    requires FsidOk(fsid)
    ensures var s := EncodeFsid(fsid) + rest; ReadFsid(s, 0, |s|) == Some(fsid)
  {
    hide LeValue, LeBytes;
    var first, second := LeBytes(AsU32(fsid.0), 4), LeBytes(AsU32(fsid.1), 4);
    var s := EncodeFsid(fsid) + rest;
    assert s == [] + (first + (second + rest)) == first + (second + rest);
    Sliced([], first, second + rest);
    Sliced(first, second, rest);
    WordRoundTrips(AsU32(fsid.0));
    WordRoundTrips(AsU32(fsid.1));
  }

  lemma HandleSurvives(p: seq<byte>, h: FileHandle, rest: seq<byte>)
    requires HandleOk(h)
    ensures var s := p + (EncodeHandle(h) + rest);
      ReadFileHandle(s, |p|, |s| - |p|) == Some(Borrowed(|p|, EncodeHandle(h)))
  {
    hide LeValue, LeBytes;
    var s := p + (EncodeHandle(h) + rest);
    var size := LeBytes(|h.payload|, 4);
    var more := LeBytes(AsU32(h.handleType), 4) + h.payload + rest;
    assert EncodeHandle(h) + rest == size + more;
    Sliced(p, size, more);
    Sliced(p, EncodeHandle(h), rest);
    WordRoundTrips(|h.payload|);
  }

  lemma ObjectSurvives(fsid: Fsid, h: FileHandle, rest: seq<byte>)
    requires FsidOk(fsid) && HandleOk(h)
    ensures var s := EncodeFsid(fsid) + (EncodeHandle(h) + rest);
      SplitFsidHandle(s, 0, |s|) == Some((fsid, Borrowed(FSID_SIZE, EncodeHandle(h))))
  {
    hide ReadFsid, ReadFileHandle, EncodeFsid, EncodeHandle;
    FsidSurvives(fsid, EncodeHandle(h) + rest);
    HandleSurvives(EncodeFsid(fsid), h, rest);
  }

  lemma {:induction false} NameSurvives(name: Name, ending: seq<byte>)
    requires NameOk(name, ending)
    ensures UntilNul(name + ending) == name
  {
    if |name| != 0 {
      assert (name + ending)[1..] == name[1..] + ending;
      NameSurvives(name[1..], ending);
    }
  }

  lemma NamedSurvives(fsid: Fsid, h: FileHandle, name: Name, ending: seq<byte>)
    requires FsidOk(fsid) && HandleOk(h) && NameOk(name, ending)
    ensures var s := EncodeNamed(fsid, h, name, ending);
      SplitFsidHandleName(s, 0, |s|) ==
        Some((fsid, Borrowed(FSID_SIZE, EncodeHandle(h)), Borrowed(FSID_SIZE + |EncodeHandle(h)|, name)))
  {
    hide SplitFsidHandle, EncodeFsid, EncodeHandle, UntilNul;
    var s := EncodeNamed(fsid, h, name, ending);
    var tail := name + ending;
    ObjectSurvives(fsid, h, tail);
    NameSurvives(name, ending);
    var p := EncodeFsid(fsid) + EncodeHandle(h);
    assert s == p + (tail + []) == p + (name + ending);
    Sliced(p, tail, []);
    Sliced(p, name, ending);
  }

  lemma PairSurvives(x: nat, y: nat, width: nat)
    requires (width == 4 && x < TWO_32 && y < TWO_32) || (width == 8 && x < TWO_32 * TWO_32 && y < TWO_32 * TWO_32)
    ensures var s := LeBytes(x, width) + LeBytes(y, width);
      LeValue(s[0..width]) == x && LeValue(s[width..width + width]) == y
  {
    hide LeValue, LeBytes;
    var first, second := LeBytes(x, width), LeBytes(y, width);
    Sliced([], first, second);
    Sliced(first, second, []);
    assert first + second == [] + (first + second) == first + (second + []);
    WordRoundTrips(x);
    WordRoundTrips(y);
  }

  lemma WordSurvives(x: nat, width: nat)
    requires (width == 4 && x < TWO_32) || (width == 8 && x < TWO_32 * TWO_32)
    ensures LeValue(LeBytes(x, width)[0..width]) == x
  {
    hide LeValue, LeBytes;
    assert LeBytes(x, width)[0..width] == LeBytes(x, width);
    WordRoundTrips(x);
  }

  // ----- Records survive. -----

  lemma PayloadFollowsHeader(s: seq<byte>, payload: seq<byte>)
    requires |s| == INFO_HEADER_SIZE + |payload| && s[INFO_HEADER_SIZE..] == payload
    ensures SameBytes(payload, 0, s, INFO_HEADER_SIZE, |payload|)
  {
    assert s[INFO_HEADER_SIZE..INFO_HEADER_SIZE + |payload|] == payload[0..0 + |payload|];
  }

  // A record whose payload is read the same on its own and in place.
  lemma PayloadIsInPlace(info: Info)
    requires InfoOk(info)
    ensures var s, payload := EncodeInfo(info), Payload(info);
      SameBytes(payload, 0, s, INFO_HEADER_SIZE, |payload|)
  {
    hide LeBytes, Payload;
    PayloadFollowsHeader(EncodeInfo(info), Payload(info));
  }

  lemma HandleInfoSurvives(info: Info)
    requires InfoOk(info) && (info.FidInfo? || info.DfidInfo?)
    ensures var s := EncodeInfo(info);
      RebaseContent(ContentOf(s, Record(TypeOf(info), 0, |s|)), None) == ContentMeant(info)
  {
    hide LeValue, LeBytes, EncodeFsid, EncodeHandle, SplitFsidHandle, EncodeInfo;
    var s, payload := EncodeInfo(info), Payload(info);
    PayloadIsInPlace(info);
    assert payload == EncodeFsid(info.fsid) + (EncodeHandle(info.handle) + []);
    ObjectSurvives(info.fsid, info.handle, []);
    FsidHandleIsLocal(payload, s, INFO_HEADER_SIZE, 0, |payload|);
  }

  lemma NameInfoSurvives(info: Info)
    requires InfoOk(info) && (info.DfidNameInfo? || info.OldNameInfo? || info.NewNameInfo?)
    ensures var s := EncodeInfo(info);
      RebaseContent(ContentOf(s, Record(TypeOf(info), 0, |s|)), None) == ContentMeant(info)
  {
    hide LeValue, LeBytes, EncodeNamed, EncodeHandle, SplitFsidHandleName, EncodeInfo;
    var s, payload := EncodeInfo(info), Payload(info);
    PayloadIsInPlace(info);
    NamedSurvives(info.fsid, info.handle, info.name, info.ending);
    FsidHandleNameIsLocal(payload, s, INFO_HEADER_SIZE, 0, |payload|);
  }

  lemma NumberInfoSurvives(info: Info)
    requires InfoOk(info) && (info.PidfdInfo? || info.ErrorInfo? || info.RangeInfo? || info.MntInfo?)
    ensures var s := EncodeInfo(info);
      RebaseContent(ContentOf(s, Record(TypeOf(info), 0, |s|)), None) == ContentMeant(info)
  {
    hide LeValue, LeBytes, EncodeInfo, Pow256;
    var s, payload := EncodeInfo(info), Payload(info);
    PayloadIsInPlace(info);
    PairsAreLocal(payload, s, INFO_HEADER_SIZE, 0, |payload|);
    match info
    case PidfdInfo(number) => WordSurvives(AsU32(number), 4);
    case ErrorInfo(error, count) => PairSurvives(AsU32(error), count, 4);
    case RangeInfo(offset, length) => PairSurvives(offset, length, 8);
    case MntInfo(id) => WordSurvives(id, 8);
  }

  lemma InfoSurvives(info: Info)
    requires InfoOk(info)
    ensures var s := EncodeInfo(info);
      RebaseContent(ContentOf(s, Record(TypeOf(info), 0, |s|)), None) == ContentMeant(info)
  {
    hide EncodeInfo, Payload;
    if info.FidInfo? || info.DfidInfo? {
      HandleInfoSurvives(info);
    } else if info.DfidNameInfo? || info.OldNameInfo? || info.NewNameInfo? {
      NameInfoSurvives(info);
    } else if !info.OtherInfo? {
      NumberInfoSurvives(info);
    }
  }

  lemma RebasedTwice(c: Content, d: nat)
    ensures RebaseContent(RebaseContent(c, Some(d)), None) == RebaseContent(c, None)
  {
  }

  // The first record of an area, whatever follows it.
  lemma FirstRecord(info: Info, rest: seq<byte>)
    requires InfoOk(info)
    ensures var x := EncodeInfo(info);
      var c, r := x + rest, Record(TypeOf(info), 0, |x|);
      && c[0] == TypeOf(info) && DeclaredLen(c, 0) == |x|
      && RebaseContent(ContentOf(c, r), None) == ContentMeant(info)
      && RebaseRaw(RawOf(c, r), None) == RawMeant(info)
  {
    hide LeValue, LeBytes, ContentOf, ContentMeant, Payload;
    var x := EncodeInfo(info);
    var c, r := x + rest, Record(TypeOf(info), 0, |x|);
    var size := LeBytes(|x|, 2);
    assert c == [TypeOf(info), 0] + (size + (Payload(info) + rest));
    Sliced([TypeOf(info), 0], size, Payload(info) + rest);
    WordRoundTrips(|x|);
    assert c[0..0 + |x|] == x[0..0 + |x|] == x;
    InfoSurvives(info);
    ContentMoves(x, c, 0, r);
    RebasedTwice(ContentOf(x, r), 0);
  }

  function OwnContents(buf: seq<byte>, rs: seq<Record>): seq<Content>
    requires AllFit(rs, |buf|)
  {
    RebaseContents(ContentsOf(buf, rs), None)
  }

  function OwnRaws(buf: seq<byte>, rs: seq<Record>): seq<RawRecord>
    requires AllFit(rs, |buf|)
  {
    RebaseRaws(RawsOf(buf, rs), None)
  }

  lemma OwnedAfterMoving(c: seq<byte>, b: seq<byte>, d: nat, rs: seq<Record>)
    requires SameBytes(c, 0, b, d, |c|) && AllFit(rs, |c|)
    ensures AllFit(MoveRecords(rs, d), |b|)
    ensures OwnContents(b, MoveRecords(rs, d)) == OwnContents(c, rs)
    ensures OwnRaws(b, MoveRecords(rs, d)) == OwnRaws(c, rs)
  {
    hide ContentOf, RebaseContent;
    AllMove(c, b, d, 0, |c|, rs);
    forall k | 0 <= k < |rs|
      ensures RebaseContent(RebaseContent(ContentOf(c, rs[k]), Some(d)), None) == RebaseContent(ContentOf(c, rs[k]), None)
    {
      RebasedTwice(ContentOf(c, rs[k]), d);
    }
    assert OwnContents(b, MoveRecords(rs, d)) == OwnContents(c, rs);
    assert OwnRaws(b, MoveRecords(rs, d)) == OwnRaws(c, rs);
  }

  lemma OwnedPrepends(buf: seq<byte>, r: Record, rs: seq<Record>)
    requires Fits(r, |buf|) && AllFit(rs, |buf|)
    ensures AllFit([r] + rs, |buf|)
    ensures OwnContents(buf, [r] + rs) == [RebaseContent(ContentOf(buf, r), None)] + OwnContents(buf, rs)
    ensures OwnRaws(buf, [r] + rs) == [RebaseRaw(RawOf(buf, r), None)] + OwnRaws(buf, rs)
  {
    hide ContentOf, RebaseContent, RawOf;
  }

  lemma {:induction false} AreaSurvives(infos: seq<Info>, slack: seq<byte>)
    requires InfosOk(infos) && |slack| < INFO_HEADER_SIZE
    ensures var c := EncodeInfos(infos) + slack;
      var t := Tile(c, 0, |c|);
      && t.tail.None?
      && OwnContents(c, t.records) == ContentsMeant(infos)
      && OwnRaws(c, t.records) == RawsMeant(infos)
    decreases |infos|
  {
    hide ContentOf, ContentMeant, RawMeant, EncodeInfo, DeclaredLen, RebaseContent, OwnContents, OwnRaws, MoveRecords,
         Payload, ContentsMeant, RawsMeant;
    var c := EncodeInfos(infos) + slack;
    if |infos| == 0 {
      NothingOwned(c);
      NothingMeant();
    } else {
      var rest := EncodeInfos(infos[1..]) + slack;
      var x := EncodeInfo(infos[0]);
      assert c == x + rest;
      AreaSurvives(infos[1..], slack);
      FirstRecord(infos[0], rest);
      assert c[|x|..|x| + |rest|] == rest[0..0 + |rest|];
      TileMoves(rest, c, |x|, 0, |rest|);
      var t := Tile(rest, 0, |rest|);
      OwnedAfterMoving(rest, c, |x|, t.records);
      OwnedPrepends(c, Record(c[0], 0, |x|), MoveRecords(t.records, |x|));
      MeantPrepends(infos);
    }
  }

  lemma NothingOwned(c: seq<byte>)
    ensures OwnContents(c, []) == [] && OwnRaws(c, []) == []
  {
  }

  lemma NothingMeant()
    ensures ContentsMeant([]) == [] && RawsMeant([]) == []
  {
  }

  lemma MeantPrepends(infos: seq<Info>)
    requires InfosOk(infos) && |infos| != 0
    ensures ContentsMeant(infos) == [ContentMeant(infos[0])] + ContentsMeant(infos[1..])
    ensures RawsMeant(infos) == [RawMeant(infos[0])] + RawsMeant(infos[1..])
  {
    hide ContentMeant, RawMeant, Payload, EncodeInfo, InfoOk, ValuesOk;
    assert forall i :: 0 <= i < |infos| - 1 ==> infos[1..][i] == infos[i + 1];
  }

  // ----- Events survive. -----

  function MetaMeant(e: KernelEvent): Meta
    requires EventOk(e)
  {
    Meta(|EncodeEvent(e)|, METADATA_VERSION, METADATA_SIZE + |e.extension|, e.mask, e.fd, e.pid)
  }

  // Six fields in a row are where their widths put them.
  lemma FieldsInARow(len: seq<byte>, vers: seq<byte>, metaLen: seq<byte>,
                     mask: seq<byte>, fd: seq<byte>, pid: seq<byte>, end: seq<byte>)
    requires |len| == |fd| == |pid| == 4 && |vers| == |metaLen| == 2 && |mask| == 8
    ensures var s := len + (vers + (metaLen + (mask + (fd + (pid + end)))));
      && |s| == METADATA_SIZE + |end|
      && s[0..4] == len && s[4..6] == vers && s[6..8] == metaLen
      && s[8..16] == mask && s[16..20] == fd && s[20..24] == pid
  {
    var s3 := mask + (fd + (pid + end));
    var s := len + (vers + (metaLen + s3));
    FirstThree(len, vers, metaLen, s3);
    FirstThree(mask, fd, pid, end);
    assert s[8..] == s3;
    assert s[8..16] == s3[0..8] && s[16..20] == s3[8..12] && s[20..24] == s3[12..16];
  }

  lemma FirstThree(x: seq<byte>, y: seq<byte>, z: seq<byte>, rest: seq<byte>)
    ensures var s := x + (y + (z + rest));
      s[0..|x|] == x && s[|x|..|x| + |y|] == y && s[|x| + |y|..|x| + |y| + |z|] == z
  {
    var s := x + (y + (z + rest));
    assert s == (x + y) + (z + rest);
    Sliced(x, y, z + rest);
    Sliced(x + y, z, rest);
  }

  lemma HeaderSurvives(e: KernelEvent)
    requires EventOk(e)
    ensures ReadMeta(EncodeEvent(e), 0) == MetaMeant(e)
  {
    hide LeValue, LeBytes, Area;
    var s := EncodeEvent(e);
    FieldsInARow(LeBytes(|s|, 4), [METADATA_VERSION, e.reserved], LeBytes(METADATA_SIZE + |e.extension|, 2),
                 LeBytes(e.mask, 8), LeBytes(AsU32(e.fd), 4), LeBytes(AsU32(e.pid), 4), e.extension + Area(e));
    assert s[4] == s[4..6][0] == METADATA_VERSION;
    WordRoundTrips(|s|);
    WordRoundTrips(METADATA_SIZE + |e.extension|);
    WordRoundTrips(e.mask);
    WordRoundTrips(AsU32(e.fd));
    WordRoundTrips(AsU32(e.pid));
  }

  lemma AreaAtEnd(e: KernelEvent)
    requires EventOk(e)
    ensures var s := EncodeEvent(e);
      s[METADATA_SIZE + |e.extension|..] == Area(e)
  {
    hide LeBytes, Area;
  }

  lemma RebasedEventTwice(ev: Event, d: nat)
    ensures IntoOwned(RebaseEvent(ev, Some(d))) == IntoOwned(ev)
  {
    var left, right := IntoOwned(RebaseEvent(ev, Some(d))).unknownInfoRecords, IntoOwned(ev).unknownInfoRecords;
    assert |left| == |right| == |ev.unknownInfoRecords|;
    forall k | 0 <= k < |left|
      ensures left[k] == right[k]
    {
    }
    assert left == right;
  }

  lemma EventSurvives(e: KernelEvent)
    requires EventOk(e)
    ensures var s := EncodeEvent(e);
      IntoOwned(EventOf(s, MetaMeant(e), METADATA_SIZE + |e.extension|, |s|)) == Meaning(e)
  {
    hide LeBytes, Interpret, Tile, EncodeEvent, RebaseEvent, EncodeInfos, ContentsMeant, RawsMeant, RebaseContents, ContentOf, RawOf;
    var s, area, start := EncodeEvent(e), Area(e), METADATA_SIZE + |e.extension|;
    AreaAtEnd(e);
    assert s[start..start + |area|] == area[0..0 + |area|];
    EventMoves(area, s, start, MetaMeant(e), 0, |area|);
    RebasedEventTwice(EventOf(area, MetaMeant(e), 0, |area|), start);
    AreaSurvives(e.infos, e.slack);
    var t := Tile(area, 0, |area|);
    InterpretRebases(e.mask, e.pid, e.fd, ContentsOf(area, t.records), RawsOf(area, t.records), [], None);
    assert RebaseRaws([], None) == [];
  }

  lemma OneEventParses(e: KernelEvent, checked: bool)
    requires EventOk(e)
    ensures var s := EncodeEvent(e);
      var p := ParseFid(s, checked);
      && p.consumed == |s| && p.stop == End && |p.events| == 1
      && IntoOwned(p.events[0]) == Meaning(e)
  {
    hide EncodeEvent, EventOf, ReadMeta, Meaning, IntoOwned;
    var s := EncodeEvent(e);
    HeaderSurvives(e);
    EventSurvives(e);
    var frame := Frame(0, |s|, METADATA_SIZE + |e.extension|, MetaMeant(e));
    assert Look(s, 0, checked) == Take(frame);
    assert Walk(s, |s|, true) == Walked([], |s|, End);
  }

  // Parsing what was encoded yields what was meant: every event, in order, and the
  // whole buffer.
  lemma {:induction false} ParseOfEncode(es: seq<KernelEvent>, checked: bool)
    requires EventsOk(es)
    ensures var buf := EncodeEvents(es);
      var p := ParseFid(buf, checked);
      && p.stop == End && p.consumed == |buf| && |p.events| == |es|
      && forall k :: 0 <= k < |es| ==> IntoOwned(p.events[k]) == Meaning(es[k])
    decreases |es|
  {
    hide EncodeEvent, EventOf, Meaning, RebaseEvent, Look;
    var buf := EncodeEvents(es);
    if |es| == 0 {
      NothingParses(checked);
    } else {
      var s, rest := EncodeEvent(es[0]), EncodeEvents(es[1..]);
      OneEventParses(es[0], checked);
      ParseOfEncode(es[1..], true);
      PrefixLaw(s, rest, checked);
      assert s[|s|..] + rest == rest;
      var first, others := ParseFid(s, checked), ParseFid(rest, true);
      var moved := MoveEvents(others.events, |s|);
      assert ParseFid(buf, checked).events == first.events + moved;
      forall k | 0 <= k < |es|
        ensures IntoOwned((first.events + moved)[k]) == Meaning(es[k])
      {
        if k != 0 {
          RebasedEventTwice(others.events[k - 1], |s|);
          assert es[k] == es[1..][k - 1];
        }
      }
    }
  }

  lemma NothingParses(checked: bool)
    ensures ParseFid([], checked) == FidParsed([], 0, End)
  {
  }

  // ----- Each kind at most once: the fields are the records, in any order. -----

  predicate AtMostOnce(kind: Kind, cs: seq<Content>) {
    forall i, j :: 0 <= i < j < |cs| ==> !(Is(kind, cs[i]) && Is(kind, cs[j]))
  }

  // Every typed field holds at most one record's worth of data.
  ghost predicate Canonical(e: KernelEvent)
    requires EventOk(e)
  {
    forall kind: Kind :: kind != Identity ==> AtMostOnce(kind, ContentsMeant(e.infos))
  }

  // The first info record that names a filesystem is number `i`.
  ghost predicate FirstIdentity(infos: seq<Info>, i: int, fsid: Fsid)
    requires InfosOk(infos)
  {
    && 0 <= i < |infos| && Is(Identity, ContentMeant(infos[i])) && ContentMeant(infos[i]).fsid == fsid
    && forall j :: 0 <= j < i ==> !Is(Identity, ContentMeant(infos[j]))
  }

  // No record of the kind.
  predicate NoneOf(kind: Kind, e: KernelEvent)
    requires EventOk(e)
  {
    var cs := ContentsMeant(e.infos);
    forall i :: 0 <= i < |cs| ==> !Is(kind, cs[i])
  }

  // The field an info record is for holds that record.
  ghost predicate Shows(ev: Event, info: Info)
    requires ValuesOk(info)
  {
    match info
    case FidInfo(_, handle) => ev.selfHandle == Some(Owned(EncodeHandle(handle)))
    case DfidInfo(_, handle) => ev.selfHandle == Some(Owned(EncodeHandle(handle)))
    case DfidNameInfo(fsid, handle, name, _) =>
      ev.dfidNameHandle == Some(Owned(EncodeHandle(handle))) && ev.dfidNameName == Some(Owned(name))
    case OldNameInfo(fsid, handle, name, _) =>
      ev.renameSource == Some(RenameSide(Owned(EncodeHandle(handle)), Owned(name)))
    case NewNameInfo(fsid, handle, name, _) =>
      ev.renameTarget == Some(RenameSide(Owned(EncodeHandle(handle)), Owned(name)))
    case PidfdInfo(number) => ev.pidfd == Unavailable(number)
    case ErrorInfo(error, count) => ev.fsError == Some((error, count))
    case RangeInfo(offset, length) => ev.accessRange == Some((offset, length))
    case MntInfo(id) => ev.mntId == Some(id)
    case OtherInfo(infoType, _) => true
  }

  // The fields no record of the kind fills say nothing.
  predicate Silent(kind: Kind, ev: Event) {
    match kind
    case Identity => ev.fsid.None?
    case EntryKind => ev.dfidNameHandle.None? && ev.dfidNameName.None?
    case ObjectKind => ev.selfHandle.None?
    case FromKind => ev.renameSource.None?
    case ToKind => ev.renameTarget.None?
    case ProcessKind => ev.pidfd.Absent?
    case ErrorKind => ev.fsError.None?
    case AccessKind => ev.accessRange.None?
    case MountKind => ev.mntId.None?
  }

  // The unknown records, in the order they came, byte for byte.
  function Unknowns(infos: seq<Info>): seq<RawRecord>
    requires InfosOk(infos)
  {
    if |infos| == 0 then []
    else
      var n := |infos| - 1;
      Unknowns(infos[..n]) + (if infos[n].OtherInfo? then [RawMeant(infos[n])] else [])
  }

  function KindOf(info: Info): Kind {
    match info
    case FidInfo(_, _) => ObjectKind
    case DfidInfo(_, _) => ObjectKind
    case DfidNameInfo(_, _, _, _) => EntryKind
    case OldNameInfo(_, _, _, _) => FromKind
    case NewNameInfo(_, _, _, _) => ToKind
    case PidfdInfo(_) => ProcessKind
    case ErrorInfo(_, _) => ErrorKind
    case RangeInfo(_, _) => AccessKind
    case MntInfo(_) => MountKind
    case OtherInfo(_, _) => Identity
  }

  lemma OnlyOneIsPicked(kind: Kind, cs: seq<Content>, i: nat)
    requires AtMostOnce(kind, cs) && i < |cs| && Is(kind, cs[i])
    ensures FirstOf(kind, cs) == Some(cs[i]) && LastOf(kind, cs) == Some(cs[i])
  {
    hide Is, FirstOf, LastOf;
    FirstOfMeans(kind, cs);
    LastOfMeans(kind, cs);
    var first :| 0 <= first < |cs| && cs[first] == FirstOf(kind, cs).value && Is(kind, cs[first]);
    var last :| 0 <= last < |cs| && cs[last] == LastOf(kind, cs).value && Is(kind, cs[last]);
    assert first == i && last == i;
  }

  // The event's filesystem is that of the first record naming one, whatever the
  // others name.
  lemma FilesystemIsFirst(e: KernelEvent, i: int, fsid: Fsid)
    requires EventOk(e) && FirstIdentity(e.infos, i, fsid)
    ensures Meaning(e).fsid == Some(fsid)
  {
    hide ContentMeant, FirstOf, LastOf, Preserved, Is, Payload, EncodeInfo, ValuesOk, Area;
    var cs := ContentsMeant(e.infos);
    MeaningIsBuilt(e);
    FirstOfMeans(Identity, cs);
    assert Is(Identity, cs[i]);
  }

  lemma InfoIsShown(e: KernelEvent, i: nat)
    requires EventOk(e) && Canonical(e) && i < |e.infos|
    ensures Shows(Meaning(e), e.infos[i])
  {
    hide EncodeHandle, FirstOf, LastOf, Preserved, Payload, Area;
    var info, cs := e.infos[i], ContentsMeant(e.infos);
    MeaningIsBuilt(e);
    if !info.OtherInfo? {
      assert cs[i] == ContentMeant(info);
      OnlyOneIsPicked(KindOf(info), cs, i);
    }
  }

  lemma MeaningIsBuilt(e: KernelEvent)
    requires EventOk(e)
    ensures exists unknown :: Meaning(e) == Build(e.mask, e.pid, e.fd, PicksOf(ContentsMeant(e.infos)), unknown)
  {
    var unknown := Preserved(ContentsMeant(e.infos), RawsMeant(e.infos)) + [];
    assert Meaning(e) == Build(e.mask, e.pid, e.fd, PicksOf(ContentsMeant(e.infos)), unknown);
  }

  lemma NoneIsSilent(e: KernelEvent, kind: Kind)
    requires EventOk(e) && NoneOf(kind, e)
    ensures Silent(kind, Meaning(e))
  {
    var cs := ContentsMeant(e.infos);
    FirstOfMeans(kind, cs);
    LastOfMeans(kind, cs);
  }

  lemma {:induction false} OnlyUnknownsAreKept(infos: seq<Info>)
    requires InfosOk(infos)
    requires AtMostOnce(EntryKind, ContentsMeant(infos)) && AtMostOnce(ProcessKind, ContentsMeant(infos))
    ensures Preserved(ContentsMeant(infos), RawsMeant(infos)) == Unknowns(infos)
  {
    hide Payload, EncodeInfo, EncodeHandle, FirstOf;
    if |infos| != 0 {
      var n, cs := |infos| - 1, ContentsMeant(infos);
      assert cs[..n] == ContentsMeant(infos[..n]) && RawsMeant(infos)[..n] == RawsMeant(infos[..n]);
      NotRepeated(EntryKind, cs);
      NotRepeated(ProcessKind, cs);
      OnlyUnknownsAreKept(infos[..n]);
      assert cs[n] == ContentMeant(infos[n]);
    }
  }

  lemma NotRepeated(kind: Kind, cs: seq<Content>)
    requires |cs| != 0 && AtMostOnce(kind, cs)
    ensures Is(kind, cs[|cs| - 1]) ==> FirstOf(kind, cs[..|cs| - 1]).None?
    ensures AtMostOnce(kind, cs[..|cs| - 1])
  {
    hide FirstOf, Is;
    var init := cs[..|cs| - 1];
    assert forall i :: 0 <= i < |init| ==> init[i] == cs[i];
    FirstOfMeans(kind, init);
  }

  // The round trip for events as a kernel writes them: whatever order the records
  // come in, each is in its field, the filesystem is that of the first record naming
  // one, a field no record is for says nothing, and the unknown records are kept
  // verbatim.
  lemma CanonicalRoundTrip(es: seq<KernelEvent>, k: nat)
    requires EventsOk(es) && k < |es| && Canonical(es[k])
    ensures var p := ParseFid(EncodeEvents(es), false);
      && p.stop == End && |p.events| == |es|
      && var ev := IntoOwned(p.events[k]);
         && ev.mask == es[k].mask && ev.pid == es[k].pid && ev.path.None?
         && ev.fdError == (if es[k].fd < -1 then Some(es[k].fd) else None)
         && (forall i :: 0 <= i < |es[k].infos| ==> Shows(ev, es[k].infos[i]))
         && (forall i, fsid :: FirstIdentity(es[k].infos, i, fsid) ==> ev.fsid == Some(fsid))
         && (forall kind: Kind :: NoneOf(kind, es[k]) ==> Silent(kind, ev))
         && ev.unknownInfoRecords == Unknowns(es[k].infos)
  {
    hide Shows, Silent, ParseFid, EncodeEvents, Preserved, PicksOf, Payload, NoneOf, FirstIdentity;
    ParseOfEncode(es, false);
    var e := es[k];
    forall i | 0 <= i < |e.infos|
      ensures Shows(Meaning(e), e.infos[i])
    {
      InfoIsShown(e, i);
    }
    forall i, fsid | FirstIdentity(e.infos, i, fsid)
      ensures Meaning(e).fsid == Some(fsid)
    {
      FilesystemIsFirst(e, i, fsid);
    }
    forall kind: Kind | NoneOf(kind, e)
      ensures Silent(kind, Meaning(e))
    {
      NoneIsSilent(e, kind);
    }
    OnlyUnknownsAreKept(e.infos);
  }
}
