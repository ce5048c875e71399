// Answering a permission event: the buffer a response is built in, its bytes on the
// wire, and what they are read back as.
module Responses {
  import opened Wrappers
  import opened Bytes
  import opened Wire

  const FAN_DENY: nat := 0x02
  const FAN_AUDIT: nat := 0x10
  const FAN_INFO: nat := 0x20
  const ERRNO_UNIT: nat := 0x100_0000
  const ERRNO_RANGE: nat := 0x100
  const INFO_AUDIT_RULE: byte := 1
  const EINVAL: int := 22
  const INLINE: nat := 32

  datatype ResponseInfo = ResponseInfo(infoType: byte, payload: seq<byte>)

  datatype Response = Response(fd: Option<int>, word: nat, info: Option<ResponseInfo>)

  // A descriptor is a non-negative `i32`, the word a `u32`.
  predicate WellTyped(r: Response) {
    && (r.fd.Some? ==> 0 <= r.fd.value < TWO_31)
    && r.word < TWO_32
  }

  // ----- The forms of a response. -----

  predicate HasFlag(word: nat, flag: nat)
    requires flag != 0
  {
    (word / flag) % 2 == 1
  }

  // `word | flag`, for a flag of one bit.
  function OrFlag(word: nat, flag: nat): nat
    requires flag != 0
  {
    if HasFlag(word, flag) then word else word + flag
  }

  function Raw(fd: Option<int>, word: nat): Response {
    Response(fd, word, None)
  }

  function AuditRulePayload(rule: nat): seq<byte> {
    LeBytes(rule, 4) + [0, 0, 0, 0, 0, 0, 0, 0]
  }

  function AuditRule(decision: nat, rule: nat): Response {
    Response(None, OrFlag(OrFlag(decision, FAN_AUDIT), FAN_INFO),
             Some(ResponseInfo(INFO_AUDIT_RULE, AuditRulePayload(rule))))
  }

  // `deny_errno_word`: the errno's low eight bits, over the decision.
  function DenyErrnoWord(errno: int): nat
    requires IsI32(errno)
  {
    FAN_DENY + (AsU32(errno) % ERRNO_RANGE) * ERRNO_UNIT
  }

  // What the kernel reads out of the word: the decision below, the errno above. An
  // errno wider than its eight bits loses the rest, a narrower one survives.
  lemma DenyErrnoIsRead(errno: int)
    requires IsI32(errno)
    ensures var word := DenyErrnoWord(errno);
      && word < TWO_32 && word % 0x100_0000 == 2
      && (word / 0x100_0000 - errno) % 256 == 0
      && (0 <= errno < 256 <==> word / 0x100_0000 == errno)
  {
    var low := AsU32(errno) % ERRNO_RANGE;
    assert DenyErrnoWord(errno) / ERRNO_UNIT == low;
    var high := AsU32(errno) / ERRNO_RANGE;
    assert AsU32(errno) == ERRNO_RANGE * high + low;
    if errno < 0 {
      assert low - errno == ERRNO_RANGE * (0x100_0000 - high);
    } else {
      assert low - errno == ERRNO_RANGE * (-high);
    }
  }

  // Setting a flag sets that bit and no other.
  lemma AuditFlag(word: nat)
    ensures var with := OrFlag(word, FAN_AUDIT);
      HasFlag(with, FAN_AUDIT) && with % 0x10 == word % 0x10 && with / 0x20 == word / 0x20
  {
  }

  lemma InfoFlag(word: nat)
    ensures var with := OrFlag(word, FAN_INFO);
      HasFlag(with, FAN_INFO) && with % 0x20 == word % 0x20 && with / 0x40 == word / 0x40
  {
  }

  // The audit form asks for both flags and leaves every other bit of the decision.
  lemma FlagsAreSet(decision: nat, rule: nat)
    requires decision < TWO_32
    ensures var word := AuditRule(decision, rule).word;
      && HasFlag(word, 0x10) && HasFlag(word, 0x20) && word < TWO_32
      && word % 0x10 == decision % 0x10 && word / 0x40 == decision / 0x40
  {
    hide OrFlag, AuditRulePayload;
    var audited := OrFlag(decision, FAN_AUDIT);
    AuditFlag(decision);
    InfoFlag(audited);
    var word := OrFlag(audited, FAN_INFO);
    SameBelow(word, audited);
    assert audited / 0x40 == (audited / 0x20) / 2 && decision / 0x40 == (decision / 0x20) / 2;
    assert word / 0x40 == decision / 0x40;
  }

  lemma SameBelow(x: nat, y: nat)
    requires x % 0x20 == y % 0x20
    ensures x % 0x10 == y % 0x10 && (x / 0x10) % 2 == (y / 0x10) % 2
  {
    LowNibble(x);
    LowNibble(y);
  }

  lemma LowNibble(x: nat)
    ensures x % 0x10 == (x % 0x20) % 0x10
    ensures (x / 0x10) % 2 == (x % 0x20) / 0x10
  {
    var low, rest := x % 0x20, x / 0x20;
    assert x == 0x20 * rest + low;
    if low < 0x10 {
      assert x / 0x10 == 2 * rest;
    } else {
      assert x / 0x10 == 2 * rest + 1;
    }
  }

  // ----- The wire format. -----

  function FdField(r: Response): int {
    if r.fd.Some? then r.fd.value else FAN_NOFD
  }

  function RecordLen(info: ResponseInfo): nat {
    INFO_HEADER_SIZE + |info.payload|
  }

  predicate FitsRecord(r: Response) {
    r.info.Some? ==> RecordLen(r.info.value) < 0x1_0000
  }

  function RecordBytes(info: ResponseInfo): seq<byte> {
    [info.infoType, 0] + (LeBytes(RecordLen(info), 2) + info.payload)
  }

  function Encoding(r: Response): seq<byte>
    requires WellTyped(r)
  {
    LeBytes(AsU32(FdField(r)), 4)
    + (LeBytes(r.word, 4) + (if r.info.Some? then RecordBytes(r.info.value) else []))
  }

  // What a reader of the bytes gets: the descriptor field, the word, and the record
  // beside them, whose `len` has to be the number of bytes after the response.
  function Decode(s: seq<byte>): Option<Response> {
    if |s| < 8 then None
    else
      PowersAreWords();
      var fdField := AsI32(LeValue(s[0..4]));
      var rest := s[8..];
      var response := Response(if fdField == FAN_NOFD then None else Some(fdField), LeValue(s[4..8]), None);
      if fdField < FAN_NOFD then None
      else if rest == [] then Some(response)
      else if |rest| < INFO_HEADER_SIZE || rest[1] != 0 || LeValue(rest[2..4]) != |rest| then None
      else Some(response.(info := Some(ResponseInfo(rest[0], rest[4..]))))
  }

  lemma DecodeOfEncoding(r: Response)
    requires WellTyped(r) && FitsRecord(r)
    ensures Decode(Encoding(r)) == Some(r)
  {
    hide LeValue, LeBytes, RecordBytes;
    ThreeParts(LeBytes(AsU32(FdField(r)), 4), LeBytes(r.word, 4),
               if r.info.Some? then RecordBytes(r.info.value) else []);
    WordRoundTrips(AsU32(FdField(r)));
    WordRoundTrips(r.word);
    if r.info.Some? {
      RecordLayout(r.info.value);
    }
  }

  lemma ThreeParts(a: seq<byte>, b: seq<byte>, rest: seq<byte>)
    requires |a| == |b| == 4
    ensures var s := a + (b + rest);
      |s| == 8 + |rest| && s[0..4] == a && s[4..8] == b && s[8..] == rest
  {
  }

  lemma RecordLayout(info: ResponseInfo)
    requires RecordLen(info) < 0x1_0000
    ensures var s := RecordBytes(info);
      && |s| == 4 + |info.payload| && s[0] == info.infoType && s[1] == 0
      && LeValue(s[2..4]) == |s| && s[4..] == info.payload
  {
    hide LeValue, LeBytes;
    assert RecordBytes(info)[2..4] == LeBytes(RecordLen(info), 2);
    WordRoundTrips(RecordLen(info));
  }

  // What follows the first eight bytes, seen from the start.
  lemma After(s: seq<byte>, rest: seq<byte>)
    requires |s| >= 8 && s[8..] == rest && |rest| >= 4
    ensures s[8] == rest[0] && s[9] == rest[1] && s[10..12] == rest[2..4] && s[12..] == rest[4..]
  {
  }

  // Where everything lies: the descriptor and the word in four bytes each, and of a
  // record its type, a zero, its length in two bytes, and its payload.
  lemma EncodingLayout(r: Response)
    requires WellTyped(r) && FitsRecord(r)
    ensures var s := Encoding(r);
      && |s| == 8 + (if r.info.Some? then 4 + |r.info.value.payload| else 0)
      && LeValue(s[0..4]) == (if r.fd.Some? then r.fd.value else 0xFFFF_FFFF)
      && LeValue(s[4..8]) == r.word
      && (r.info.Some? ==>
            && s[8] == r.info.value.infoType && s[9] == 0
            && LeValue(s[10..12]) == 4 + |r.info.value.payload|
            && s[12..] == r.info.value.payload)
  {
    hide LeValue, LeBytes, RecordBytes;
    ThreeParts(LeBytes(AsU32(FdField(r)), 4), LeBytes(r.word, 4),
               if r.info.Some? then RecordBytes(r.info.value) else []);
    WordRoundTrips(AsU32(FdField(r)));
    WordRoundTrips(r.word);
    if r.info.Some? {
      RecordLayout(r.info.value);
      After(Encoding(r), RecordBytes(r.info.value));
    }
  }

  // The audit record carries the rule in its first four bytes and zeros after it.
  lemma AuditPayload(decision: nat, rule: nat)
    requires decision < TWO_32 && rule < TWO_32
    ensures var info := AuditRule(decision, rule).info.value;
      && info.infoType == 1 && |info.payload| == 12
      && LeValue(info.payload[0..4]) == rule && info.payload[4..] == [0, 0, 0, 0, 0, 0, 0, 0]
    ensures AuditRule(decision, rule).fd.None?
  {
    hide LeValue, LeBytes;
    WordRoundTrips(rule);
    assert AuditRulePayload(rule)[0..4] == LeBytes(rule, 4);
  }

  lemma {:induction false} BytesOfValue(s: seq<byte>)
    ensures LeBytes(LeValue(s), |s|) == s
  {
    if |s| != 0 {
      BytesOfValue(s[1..]);
      assert LeValue(s) % 256 == s[0] && LeValue(s) / 256 == LeValue(s[1..]);
    }
  }

  // Nothing else is read as that response: the bytes that decode to it are its own.
  lemma EncodingOfDecode(s: seq<byte>)
    requires Decode(s).Some?
    ensures WellTyped(Decode(s).value) && FitsRecord(Decode(s).value)
    ensures Encoding(Decode(s).value) == s
  {
    hide LeValue, LeBytes;
    PowersAreWords();
    BytesOfValue(s[0..4]);
    BytesOfValue(s[4..8]);
    var rest := s[8..];
    assert s == s[0..4] + (s[4..8] + rest);
    if rest != [] {
      BytesOfValue(rest[2..4]);
      assert rest == [rest[0], 0] + (rest[2..4] + rest[4..]);
    }
  }

  // ----- The buffer. -----

  class WireBuffer {
    const inline: array<byte>
    var len: nat
    var spilled: Option<seq<byte>>

    // The buffer is on the stack for as long as its contents fit there.
    predicate Valid()
      reads this
    {
      && inline.Length == INLINE && len <= INLINE
      && (spilled.Some? ==> |spilled.value| > INLINE)
    }

    function Contents(): seq<byte>
      requires Valid()
      reads this, inline
    {
      if spilled.Some? then spilled.value else inline[..len]
    }

    constructor ()
      ensures Valid() && Contents() == [] && fresh(inline)
    {
      inline := new byte[INLINE](_ => 0);
      len := 0;
      spilled := None;
    }

    method ExtendFromSlice(bytes: seq<byte>)
      requires Valid()
      modifies this, inline
      ensures Valid() && Contents() == old(Contents()) + bytes
      ensures spilled.Some? <==> |Contents()| > INLINE
    {
      if spilled.Some? {
        spilled := Some(spilled.value + bytes);
        return;
      }
      var end := len + |bytes|;
      if end <= INLINE {
        ghost var was := inline[..len];
        forall i | 0 <= i < |bytes| {
          inline[len + i] := bytes[i];
        }
        assert inline[..end] == was + bytes;
        len := end;
        return;
      }
      spilled := Some(inline[..len] + bytes);
    }
  }

  function Concat(pieces: seq<seq<byte>>): seq<byte> {
    if |pieces| == 0 then [] else Concat(pieces[..|pieces| - 1]) + pieces[|pieces| - 1]
  }

  // However the appends fall around the spill, the buffer holds all of them in order.
  method AppendAll(buffer: WireBuffer, pieces: seq<seq<byte>>)
    requires buffer.Valid()
    modifies buffer, buffer.inline
    ensures buffer.Valid() && buffer.Contents() == old(buffer.Contents()) + Concat(pieces)
  {
    var i := 0;
    assert buffer.Contents() + [] == buffer.Contents();
    while i < |pieces|
      invariant i <= |pieces| && buffer.Valid()
      invariant buffer.Contents() == old(buffer.Contents()) + Concat(pieces[..i])
    {
      assert pieces[..i + 1][..i] == pieces[..i];
      buffer.ExtendFromSlice(pieces[i]);
      i := i + 1;
    }
    assert pieces[..i] == pieces;
  }

  method WriteRecord(body: WireBuffer, info: ResponseInfo) returns (refused: bool)
    requires body.Valid()
    modifies body, body.inline
    ensures body.Valid() && (!refused ==> (body.spilled.Some? <==> |body.Contents()| > INLINE))
    ensures refused <==> RecordLen(info) >= 0x1_0000
    ensures !refused ==> body.Contents() == old(body.Contents()) + RecordBytes(info)
  {
    hide LeBytes;
    var len := INFO_HEADER_SIZE + |info.payload|;
    if len >= 0x1_0000 {
      return true;
    }
    ghost var start := body.Contents();
    body.ExtendFromSlice([info.infoType, 0]);
    body.ExtendFromSlice(LeBytes(len, 2));
    body.ExtendFromSlice(info.payload);
    assert start + [info.infoType, 0] + LeBytes(len, 2) + info.payload == start + RecordBytes(info);
    return false;
  }

  // `encode_response`: refused exactly when the record does not fit its length
  // field, and otherwise the bytes of the response, off the stack only when they do
  // not fit there.
  method EncodeResponse(r: Response) returns (encoded: Result<WireBuffer, int>)
    requires WellTyped(r)
    ensures encoded.Ok? <==> FitsRecord(r)
    ensures encoded.Err? <==> r.info.Some? && 4 + |r.info.value.payload| > 65535
    ensures encoded.Err? ==> encoded.error == 22
    ensures encoded.Ok? ==>
      && encoded.value.Valid() && encoded.value.Contents() == Encoding(r)
      && (encoded.value.spilled.Some? <==> |Encoding(r)| > 32)
  {
    hide LeBytes, RecordBytes;
    var body := new WireBuffer();
    var fdField := if r.fd.Some? then r.fd.value else FAN_NOFD;
    body.ExtendFromSlice(LeBytes(AsU32(fdField), 4));
    body.ExtendFromSlice(LeBytes(r.word, 4));
    ghost var head := LeBytes(AsU32(fdField), 4) + LeBytes(r.word, 4);
    assert body.Contents() == [] + LeBytes(AsU32(fdField), 4) + LeBytes(r.word, 4) == head;
    if r.info.Some? {
      var refused := WriteRecord(body, r.info.value);
      if refused {
        return Err(EINVAL);
      }
      assert head + RecordBytes(r.info.value) == Encoding(r);
    } else {
      assert head == Encoding(r);
    }
    return Ok(body);
  }

  // The forms this crate builds itself are 8 bytes, or 24 with the audit record, so
  // they stay on the stack.
  lemma OwnFormsFit(fd: int, word: nat, decision: nat, rule: nat)
    requires 0 <= fd < TWO_31 && word < TWO_32 && decision < TWO_32
    ensures |Encoding(Raw(Some(fd), word))| == 8
    ensures WellTyped(AuditRule(decision, rule)) && FitsRecord(AuditRule(decision, rule))
    ensures |Encoding(AuditRule(decision, rule))| == 24 <= INLINE
    ensures Decode(Encoding(AuditRule(decision, rule))) == Some(AuditRule(decision, rule))
  {
    hide LeValue, LeBytes;
    FlagsAreSet(decision, rule);
    DecodeOfEncoding(AuditRule(decision, rule));
  }
}
