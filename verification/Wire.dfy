// The fixed layouts of fanotify(7), "Reading fanotify events", and the bounded
// readers that take a field out of a byte buffer or answer that it is not there.
// Words are little-endian.
module Wire {
  import opened Wrappers
  import opened Bytes

  const METADATA_SIZE: nat := 24
  const INFO_HEADER_SIZE: nat := 4
  const FSID_SIZE: nat := 8
  const FILE_HANDLE_HEADER_SIZE: nat := 8
  const MAX_HANDLE_SZ: nat := 128
  const METADATA_VERSION: byte := 3
  const FAN_NOFD: int := -1

  const TYPE_FID: byte := 1
  const TYPE_DFID_NAME: byte := 2
  const TYPE_DFID: byte := 3
  const TYPE_PIDFD: byte := 4
  const TYPE_ERROR: byte := 5
  const TYPE_RANGE: byte := 6
  const TYPE_MNT: byte := 7
  const TYPE_OLD_DFID_NAME: byte := 10
  const TYPE_NEW_DFID_NAME: byte := 12

  type Fsid = (int, int)

  // `Cow<'buf, [u8]>`: bytes inside the parse buffer, starting at `at`, or bytes
  // the event owns.
  datatype Cow =
    | Borrowed(at: nat, bytes: seq<byte>)
    | Owned(bytes: seq<byte>)

  function Borrow(buf: seq<byte>, lo: nat, hi: nat): Cow
    requires lo <= hi <= |buf|
  {
    Borrowed(lo, buf[lo..hi])
  }

  // The same bytes seen from a buffer in which they lie `d` further on.
  function MoveCow(c: Cow, d: nat): Cow {
    match c
    case Borrowed(at, bytes) => Borrowed(at + d, bytes)
    case Owned(_) => c
  }

  function OwnCow(c: Cow): Cow {
    Owned(c.bytes)
  }

  // `struct fanotify_event_metadata`.
  datatype Meta = Meta(eventLen: nat, vers: byte, metadataLen: nat, mask: nat, fd: int, pid: int)

  function ReadMeta(buf: seq<byte>, at: nat): Meta
    requires at + METADATA_SIZE <= |buf|
  {
    PowersAreWords();
    Meta(LeValue(buf[at..at + 4]),
         buf[at + 4],
         LeValue(buf[at + 6..at + 8]),
         LeValue(buf[at + 8..at + 16]),
         AsI32(LeValue(buf[at + 16..at + 20])),
         AsI32(LeValue(buf[at + 20..at + 24])))
  }

  function ReadU32(buf: seq<byte>, at: nat, len: nat): (r: Option<nat>)
    ensures r.Some? ==> r.value < TWO_32
  {
    PowersAreWords();
    if at + 4 <= |buf| && len >= 4 then Some(LeValue(buf[at..at + 4])) else None
  }

  function ReadU64(buf: seq<byte>, at: nat, len: nat): Option<nat> {
    if at + 8 <= |buf| && len >= 8 then Some(LeValue(buf[at..at + 8])) else None
  }

  // A subtraction that stops at zero.
  function SaturatingSub(n: nat, m: nat): nat {
    if n < m then 0 else n - m
  }

  function ReadFsid(buf: seq<byte>, at: nat, len: nat): Option<Fsid> {
    if len < FSID_SIZE then None
    else
      match (ReadU32(buf, at, len), ReadU32(buf, at + 4, len - 4))
      case (Some(first), Some(second)) => Some((AsI32(first), AsI32(second)))
      case _ => None
  }

  // `struct file_handle` whole, header included: `handle_bytes` counts only what
  // follows the 8-byte header.
  function ReadFileHandle(buf: seq<byte>, at: nat, len: nat): (r: Option<Cow>)
    ensures r.Some? ==>
      && r.value.Borrowed? && r.value.at == at
      && FILE_HANDLE_HEADER_SIZE <= |r.value.bytes| <= FILE_HANDLE_HEADER_SIZE + MAX_HANDLE_SZ
      && |r.value.bytes| <= len && at + |r.value.bytes| <= |buf|
      && r.value == Borrow(buf, at, at + |r.value.bytes|)
  {
    match ReadU32(buf, at, len)
    case None => None
    case Some(handleBytes) =>
      var total := FILE_HANDLE_HEADER_SIZE + handleBytes;
      if handleBytes > MAX_HANDLE_SZ || total > len || at + total > |buf| then None
      else Some(Borrow(buf, at, at + total))
  }

  function SplitFsidHandle(buf: seq<byte>, at: nat, len: nat): Option<(Fsid, Cow)> {
    match ReadFsid(buf, at, len)
    case None => None
    case Some(fsid) =>
      match ReadFileHandle(buf, at + FSID_SIZE, SaturatingSub(len, FSID_SIZE))
      case None => None
      case Some(handle) => Some((fsid, handle))
  }

  // The bytes before the first NUL, or all of them when there is none.
  function UntilNul(raw: seq<byte>): (name: seq<byte>)
    ensures name <= raw
    ensures 0 !in name
    ensures |name| < |raw| ==> raw[|name|] == 0
  {
    if |raw| == 0 || raw[0] == 0 then [] else [raw[0]] + UntilNul(raw[1..])
  }

  function SplitFsidHandleName(buf: seq<byte>, at: nat, len: nat): Option<(Fsid, Cow, Cow)> {
    match SplitFsidHandle(buf, at, len)
    case None => None
    case Some((fsid, handle)) =>
      var nameAt := at + FSID_SIZE + |handle.bytes|;
      var nameLen := SaturatingSub(len, FSID_SIZE + |handle.bytes|);
      if len < FSID_SIZE + |handle.bytes| || nameAt + nameLen > |buf| then None
      else
        var raw := buf[nameAt..nameAt + nameLen];
        Some((fsid, handle, Borrow(buf, nameAt, nameAt + |UntilNul(raw)|)))
  }

  // ----- A field depends only on the bytes it is allowed to look at. -----

  lemma MetaIsLocal(c: seq<byte>, b: seq<byte>, d: nat, at: nat)
    requires SameBytes(c, at, b, at + d, METADATA_SIZE)
    ensures ReadMeta(c, at) == ReadMeta(b, at + d)
  {
    SameWithin(c, at, b, at + d, METADATA_SIZE, 0, 4);
    SameByteAt(c, at, b, at + d, METADATA_SIZE, 4);
    SameWithin(c, at, b, at + d, METADATA_SIZE, 6, 2);
    SameWithin(c, at, b, at + d, METADATA_SIZE, 8, 8);
    SameWithin(c, at, b, at + d, METADATA_SIZE, 16, 4);
    SameWithin(c, at, b, at + d, METADATA_SIZE, 20, 4);
  }

  lemma WordsAreLocal(c: seq<byte>, b: seq<byte>, d: nat, at: nat, len: nat)
    requires SameBytes(c, at, b, at + d, len)
    ensures ReadU32(c, at, len) == ReadU32(b, at + d, len)
    ensures ReadU64(c, at, len) == ReadU64(b, at + d, len)
  {
    if len >= 4 {
      SameWithin(c, at, b, at + d, len, 0, 4);
    }
    if len >= 8 {
      SameWithin(c, at, b, at + d, len, 0, 8);
    }
  }

  lemma HandleIsLocal(c: seq<byte>, b: seq<byte>, d: nat, at: nat, len: nat)
    requires SameBytes(c, at, b, at + d, len)
    ensures ReadFileHandle(c, at, len).Some? == ReadFileHandle(b, at + d, len).Some?
    ensures ReadFileHandle(c, at, len).Some? ==>
      MoveCow(ReadFileHandle(c, at, len).value, d) == ReadFileHandle(b, at + d, len).value
  {
    hide ReadU32, ReadU64;
    WordsAreLocal(c, b, d, at, len);
    var handle := ReadFileHandle(c, at, len);
    if handle.Some? {
      SameWithin(c, at, b, at + d, len, 0, |handle.value.bytes|);
    }
  }

  lemma FsidIsLocal(c: seq<byte>, b: seq<byte>, d: nat, at: nat, len: nat)
    requires SameBytes(c, at, b, at + d, len)
    ensures ReadFsid(c, at, len) == ReadFsid(b, at + d, len)
  {
    hide SameBytes, ReadU32;
    if len >= FSID_SIZE {
      WordsAreLocal(c, b, d, at, len);
      SameWithin(c, at, b, at + d, len, 4, len - 4);
      WordsAreLocal(c, b, d, at + 4, len - 4);
    }
  }

  lemma FsidHandleIsLocal(c: seq<byte>, b: seq<byte>, d: nat, at: nat, len: nat)
    requires SameBytes(c, at, b, at + d, len)
    ensures SplitFsidHandle(c, at, len).Some? == SplitFsidHandle(b, at + d, len).Some?
    ensures SplitFsidHandle(c, at, len).Some? ==>
      && SplitFsidHandle(c, at, len).value.0 == SplitFsidHandle(b, at + d, len).value.0
      && MoveCow(SplitFsidHandle(c, at, len).value.1, d) == SplitFsidHandle(b, at + d, len).value.1
  {
    hide SameBytes, ReadFsid, ReadFileHandle;
    FsidIsLocal(c, b, d, at, len);
    if len >= FSID_SIZE {
      SameWithin(c, at, b, at + d, len, FSID_SIZE, len - FSID_SIZE);
      HandleIsLocal(c, b, d, at + FSID_SIZE, len - FSID_SIZE);
    } else {
      NoFsid(c, at, len);
    }
  }

  lemma NoFsid(buf: seq<byte>, at: nat, len: nat)
    requires len < FSID_SIZE
    ensures ReadFsid(buf, at, len).None?
  {
  }

  // The part of `SplitFsidHandleName` after the handle: the name in the rest of the
  // payload.
  lemma NameIsLocal(c: seq<byte>, b: seq<byte>, d: nat, at: nat, len: nat)
    requires SameBytes(c, at, b, at + d, len)
    ensures at + len <= |c| && at + d + len <= |b| && c[at..at + len] == b[at + d..at + d + len]
    ensures var name := |UntilNul(c[at..at + len])|;
      MoveCow(Borrow(c, at, at + name), d) == Borrow(b, at + d, at + d + name)
  {
    SameWithin(c, at, b, at + d, len, 0, |UntilNul(c[at..at + len])|);
  }

  lemma FsidHandleNameIsLocal(c: seq<byte>, b: seq<byte>, d: nat, at: nat, len: nat)
    requires SameBytes(c, at, b, at + d, len)
    ensures SplitFsidHandleName(c, at, len).Some? == SplitFsidHandleName(b, at + d, len).Some?
    ensures SplitFsidHandleName(c, at, len).Some? ==>
      && SplitFsidHandleName(c, at, len).value.0 == SplitFsidHandleName(b, at + d, len).value.0
      && MoveCow(SplitFsidHandleName(c, at, len).value.1, d) == SplitFsidHandleName(b, at + d, len).value.1
      && MoveCow(SplitFsidHandleName(c, at, len).value.2, d) == SplitFsidHandleName(b, at + d, len).value.2
  {
    hide SplitFsidHandle, UntilNul, SameBytes, Borrow;
    FsidHandleIsLocal(c, b, d, at, len);
    var split := SplitFsidHandle(c, at, len);
    if split.Some? && FSID_SIZE + |split.value.1.bytes| <= len {
      var skip := FSID_SIZE + |split.value.1.bytes|;
      SameWithin(c, at, b, at + d, len, skip, len - skip);
      NameIsLocal(c, b, d, at + skip, len - skip);
    }
  }
}
