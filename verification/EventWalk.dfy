// The walk over a buffer of events: where each event lies, how far the walk got
// and why it stopped. Both formats are walked the same way; they differ in what
// they take from an event.
module EventWalk {
  import opened Wrappers
  import opened Bytes
  import opened Wire
  import opened Events
  import opened Records

  datatype EventStop =
    | End
    | ShortHeader
    | BadEventLen(claimed: nat)
    | BadMetadataLen
    | UnknownVersion(vers: byte)

  datatype ParseReport = ParseReport(bytesConsumed: nat, bytesLeft: nat, stop: EventStop)

  // One event's place in the buffer: its records start `recordsStart` bytes in.
  datatype Frame = Frame(at: nat, len: nat, recordsStart: nat, meta: Meta)

  datatype Verdict = Stop(stop: EventStop) | Take(frame: Frame)

  datatype Walked = Walked(frames: seq<Frame>, consumed: nat, stop: EventStop)

  // What the walk decides at offset `at`; `checked` says that a header's version
  // has been looked at before.
  function Look(buf: seq<byte>, at: nat, checked: bool): (v: Verdict)
    requires at <= |buf|
    ensures v.Take? ==> v.frame.at == at && FrameFits(v.frame, |buf|)
    ensures v.Stop? ==> (v.stop == End <==> at == |buf|)
  {
    if at + METADATA_SIZE > |buf| then Stop(if at == |buf| then End else ShortHeader)
    else
      var meta := ReadMeta(buf, at);
      if !checked && meta.vers != METADATA_VERSION then Stop(UnknownVersion(meta.vers))
      else if meta.eventLen < METADATA_SIZE || meta.eventLen > |buf| - at then Stop(BadEventLen(meta.eventLen))
      else if RecordsStart(meta) > meta.eventLen then Stop(BadMetadataLen)
      else Take(Frame(at, meta.eventLen, RecordsStart(meta), meta))
  }

  function RecordsStart(meta: Meta): nat {
    if meta.metadataLen < METADATA_SIZE then METADATA_SIZE else meta.metadataLen
  }

  predicate FrameFits(f: Frame, n: nat) {
    METADATA_SIZE <= f.recordsStart <= f.len && f.at + f.len <= n
  }

  predicate AllFramesFit(frames: seq<Frame>, n: nat) {
    forall k :: 0 <= k < |frames| ==> FrameFits(frames[k], n)
  }

  function Walk(buf: seq<byte>, at: nat, checked: bool): (w: Walked)
    requires at <= |buf|
    ensures AllFramesFit(w.frames, |buf|)
    ensures at + METADATA_SIZE * |w.frames| <= w.consumed <= |buf|
    ensures w.stop == End <==> w.consumed == |buf|
    decreases |buf| - at
  {
    match Look(buf, at, checked)
    case Stop(stop) => Walked([], at, stop)
    case Take(frame) =>
      var rest := Walk(buf, at + frame.len, true);
      Walked([frame] + rest.frames, rest.consumed, rest.stop)
  }

  function ReportOf(buf: seq<byte>, w: Walked): ParseReport
    requires w.consumed <= |buf|
  {
    ParseReport(w.consumed, |buf| - w.consumed, w.stop)
  }

  // ----- The walk, said without a recursion. -----

  function FrameStart(at: nat, frames: seq<Frame>, k: nat): nat
    requires k <= |frames|
  {
    if k == 0 then at else frames[k - 1].at + frames[k - 1].len
  }

  ghost predicate IsFrameAt(buf: seq<byte>, at: nat, checked: bool, frames: seq<Frame>, k: nat)
    requires k < |frames|
  {
    var start := FrameStart(at, frames, k);
    start <= |buf| && Look(buf, start, checked || k != 0) == Take(frames[k])
  }

  // The events follow one another from `at`, each the whole of what its header
  // claims, and the walk ends at the first offset whose header stops it.
  ghost predicate IsWalk(buf: seq<byte>, at: nat, checked: bool, w: Walked) {
    && w.consumed == FrameStart(at, w.frames, |w.frames|) <= |buf|
    && (forall k :: 0 <= k < |w.frames| ==> IsFrameAt(buf, at, checked, w.frames, k))
    && Look(buf, w.consumed, checked || w.frames != []) == Stop(w.stop)
  }

  lemma {:induction false} WalkIsWalk(buf: seq<byte>, at: nat, checked: bool)
    requires at <= |buf|
    ensures IsWalk(buf, at, checked, Walk(buf, at, checked))
    decreases |buf| - at
  {
    hide Look;
    match Look(buf, at, checked)
    case Stop(_) =>
    case Take(frame) =>
      WalkIsWalk(buf, at + frame.len, true);
      PrependWalk(buf, at, checked, frame, Walk(buf, at + frame.len, true));
  }

  lemma PrependWalk(buf: seq<byte>, at: nat, checked: bool, frame: Frame, rest: Walked)
    requires at <= |buf| && Look(buf, at, checked) == Take(frame)
    requires IsWalk(buf, at + frame.len, true, rest)
    ensures IsWalk(buf, at, checked, Walked([frame] + rest.frames, rest.consumed, rest.stop))
  {
    hide Look, Walk;
    var frames := [frame] + rest.frames;
    forall k | 0 <= k < |frames|
      ensures IsFrameAt(buf, at, checked, frames, k)
    {
      if k != 0 {
        assert IsFrameAt(buf, at + frame.len, true, rest.frames, k - 1);
        assert frames[k] == rest.frames[k - 1];
      }
    }
  }

  lemma {:induction false} WalkIsUnique(buf: seq<byte>, at: nat, checked: bool, w: Walked)
    requires at <= |buf| && IsWalk(buf, at, checked, w)
    ensures w == Walk(buf, at, checked)
    decreases |w.frames|
  {
    hide Look;
    if w.frames != [] {
      var first := w.frames[0];
      assert IsFrameAt(buf, at, checked, w.frames, 0);
      var rest := Walked(w.frames[1..], w.consumed, w.stop);
      var next := at + first.len;
      forall k | 0 <= k < |rest.frames|
        ensures IsFrameAt(buf, next, true, rest.frames, k)
      {
        assert IsFrameAt(buf, at, checked, w.frames, k + 1);
        assert rest.frames[k] == w.frames[k + 1];
      }
      WalkIsUnique(buf, next, true, rest);
      assert w.frames == [first] + rest.frames;
    }
  }

  // ----- The walk as a loop runs it. -----

  // After `n` events the loop is at `at`, and what it has yet to do is the walk
  // from there.
  ghost predicate Reached(buf: seq<byte>, n: nat, at: nat, checked: bool) {
    && at <= |buf|
    && n <= |Walk(buf, 0, false).frames|
    && checked == (n != 0)
    && var rest := Walk(buf, at, checked);
       Walk(buf, 0, false) == Walked(Walk(buf, 0, false).frames[..n] + rest.frames, rest.consumed, rest.stop)
  }

  lemma ReachedAtStart(buf: seq<byte>)
    ensures Reached(buf, 0, 0, false)
  {
    hide Look;
    var w := Walk(buf, 0, false);
    assert w.frames[..0] + w.frames == w.frames;
  }

  lemma ReachedNext(buf: seq<byte>, n: nat, at: nat, checked: bool, frame: Frame)
    requires Reached(buf, n, at, checked) && Look(buf, at, checked) == Take(frame)
    ensures n < |Walk(buf, 0, false).frames| && Walk(buf, 0, false).frames[n] == frame
    ensures Reached(buf, n + 1, at + frame.len, true)
  {
    hide Look;
    var whole, rest := Walk(buf, 0, false), Walk(buf, at + frame.len, true);
    assert Walk(buf, at, checked).frames == [frame] + rest.frames;
    assert whole.frames[..n + 1] == whole.frames[..n] + [frame];
    assert whole.frames[..n] + ([frame] + rest.frames) == whole.frames[..n + 1] + rest.frames;
  }

  lemma ReachedEnd(buf: seq<byte>, n: nat, at: nat, checked: bool, stop: EventStop)
    requires Reached(buf, n, at, checked) && Look(buf, at, checked) == Stop(stop)
    ensures var whole := Walk(buf, 0, false);
      n == |whole.frames| && whole.consumed == at && whole.stop == stop
  {
    hide Look;
    assert Walk(buf, at, checked).frames == [];
  }

  // The source's decisions in the order it takes them.
  lemma LookIs(buf: seq<byte>, at: nat, checked: bool)
    requires at <= |buf|
    ensures Look(buf, at, checked) ==
      if at + METADATA_SIZE > |buf| then Stop(if at == |buf| then End else ShortHeader)
      else
        var meta := ReadMeta(buf, at);
        if !checked && meta.vers != METADATA_VERSION then Stop(UnknownVersion(meta.vers))
        else if meta.eventLen < METADATA_SIZE || meta.eventLen > |buf| - at then Stop(BadEventLen(meta.eventLen))
        else if RecordsStart(meta) > meta.eventLen then Stop(BadMetadataLen)
        else Take(Frame(at, meta.eventLen, RecordsStart(meta), meta))
  {
    hide ReadMeta;
  }

  // ----- What each format takes from an event. -----

  function FidEventAt(buf: seq<byte>, f: Frame): Event
    requires FrameFits(f, |buf|)
  {
    EventOf(buf, f.meta, f.at + f.recordsStart, f.at + f.len)
  }

  function FidEvents(buf: seq<byte>, frames: seq<Frame>): seq<Event>
    requires AllFramesFit(frames, |buf|)
  {
    seq(|frames|, k requires 0 <= k < |frames| => FidEventAt(buf, frames[k]))
  }

  datatype FdFacts = FdFacts(mask: nat, pid: int, fdField: int)

  function FdEvents(frames: seq<Frame>): seq<FdFacts> {
    seq(|frames|, k requires 0 <= k < |frames| =>
      FdFacts(frames[k].meta.mask, frames[k].meta.pid, frames[k].meta.fd))
  }

  datatype FidParsed = FidParsed(events: seq<Event>, consumed: nat, stop: EventStop)

  function ParseFid(buf: seq<byte>, checked: bool): FidParsed {
    var w := Walk(buf, 0, checked);
    FidParsed(FidEvents(buf, w.frames), w.consumed, w.stop)
  }

  // ----- Buffers that continue other buffers. -----

  function MoveFrame(f: Frame, d: nat): Frame {
    f.(at := f.at + d)
  }

  function MoveFrames(frames: seq<Frame>, d: nat): seq<Frame> {
    seq(|frames|, k requires 0 <= k < |frames| => MoveFrame(frames[k], d))
  }

  function MoveEvents(events: seq<Event>, d: nat): seq<Event> {
    seq(|events|, k requires 0 <= k < |events| => RebaseEvent(events[k], Some(d)))
  }

  // An event the walk takes from `a` it takes from everything that starts with `a`.
  lemma TakeSurvives(a: seq<byte>, b: seq<byte>, at: nat, checked: bool)
    requires at <= |a| && Look(a, at, checked).Take?
    ensures Look(a + b, at, checked) == Look(a, at, checked)
  {
    assert SameBytes(a, at, a + b, at + 0, METADATA_SIZE);
    MetaIsLocal(a, a + b, 0, at);
  }

  // A walk that goes on where another one stopped.
  function Join(w: Walked, rest: Walked): Walked {
    Walked(w.frames + rest.frames, rest.consumed, rest.stop)
  }

  lemma JoinPrepends(frame: Frame, w: Walked, rest: Walked)
    ensures Join(Walked([frame] + w.frames, w.consumed, w.stop), rest) ==
      Walked([frame] + Join(w, rest).frames, rest.consumed, rest.stop)
  {
    assert ([frame] + w.frames) + rest.frames == [frame] + (w.frames + rest.frames);
  }

  lemma {:induction false} WalkContinues(a: seq<byte>, b: seq<byte>, at: nat, checked: bool)
    requires at <= |a|
    ensures var w := Walk(a, at, checked);
      Walk(a + b, at, checked) == Join(w, Walk(a + b, w.consumed, checked || w.frames != []))
    decreases |a| - at
  {
    hide Look, Join;
    var w := Walk(a, at, checked);
    match Look(a, at, checked)
    case Stop(_) =>
      JoinNothing(at, w.stop, Walk(a + b, at, checked));
    case Take(frame) =>
      TakeSurvives(a, b, at, checked);
      WalkContinues(a, b, at + frame.len, true);
      var inner, rest := Walk(a, at + frame.len, true), Walk(a + b, w.consumed, true);
      JoinPrepends(frame, inner, rest);
      JoinIs(inner, rest);
      assert w.frames != [];
  }

  lemma JoinIs(w: Walked, rest: Walked)
    ensures Join(w, rest).consumed == rest.consumed && Join(w, rest).stop == rest.stop
  {
  }

  lemma JoinNothing(at: nat, stop: EventStop, rest: Walked)
    ensures Join(Walked([], at, stop), rest) == rest
  {
    assert [] + rest.frames == rest.frames;
  }

  lemma LookMoves(p: seq<byte>, c: seq<byte>, at: nat, checked: bool)
    requires at <= |c|
    ensures Look(p + c, |p| + at, checked) ==
      match Look(c, at, checked)
      case Stop(stop) => Stop(stop)
      case Take(frame) => Take(MoveFrame(frame, |p|))
  {
    if at + METADATA_SIZE <= |c| {
      assert (p + c)[at + |p|..at + |p| + METADATA_SIZE] == c[at..at + METADATA_SIZE];
      MetaIsLocal(c, p + c, |p|, at);
    }
  }

  lemma {:induction false} WalkMoves(p: seq<byte>, c: seq<byte>, at: nat, checked: bool)
    requires at <= |c|
    ensures var w := Walk(c, at, checked);
      Walk(p + c, |p| + at, checked) == Walked(MoveFrames(w.frames, |p|), |p| + w.consumed, w.stop)
    decreases |c| - at
  {
    hide Look;
    LookMoves(p, c, at, checked);
    match Look(c, at, checked)
    case Stop(_) =>
    case Take(frame) =>
      WalkMoves(p, c, at + frame.len, true);
      var rest := Walk(c, at + frame.len, true);
      assert MoveFrames([frame] + rest.frames, |p|) == [MoveFrame(frame, |p|)] + MoveFrames(rest.frames, |p|);
  }

  lemma EventsMove(c: seq<byte>, b: seq<byte>, d: nat, frames: seq<Frame>)
    requires SameBytes(c, 0, b, d, |c|)
    requires AllFramesFit(frames, |c|)
    ensures AllFramesFit(MoveFrames(frames, d), |b|)
    ensures FidEvents(b, MoveFrames(frames, d)) == MoveEvents(FidEvents(c, frames), d)
  {
    hide EventOf, RebaseEvent;
    var moved := MoveFrames(frames, d);
    forall k | 0 <= k < |frames|
      ensures FrameFits(moved[k], |b|)
      ensures FidEventAt(b, moved[k]) == RebaseEvent(FidEventAt(c, frames[k]), Some(d))
    {
      var f := frames[k];
      SameWithin(c, 0, b, d, |c|, f.at + f.recordsStart, f.len - f.recordsStart);
      EventMoves(c, b, d, f.meta, f.at + f.recordsStart, f.at + f.len);
    }
  }

  // An event says the same wherever its bytes lie: moving nowhere changes nothing.
  lemma MoveNowhere(events: seq<Event>)
    ensures MoveEvents(events, 0) == events
  {
    forall k | 0 <= k < |events|
      ensures RebaseEvent(events[k], Some(0)) == events[k]
    {
      assert RebaseRaws(events[k].unknownInfoRecords, Some(0)) == events[k].unknownInfoRecords;
    }
  }

  // The prefix law. Parsing `a + b` yields the events of `a`, and then those of
  // what `a` left unconsumed followed by `b`, in which the version counts as
  // checked once `a` has yielded an event.
  lemma PrefixLaw(a: seq<byte>, b: seq<byte>, checked: bool)
    ensures var left := ParseFid(a, checked);
      var rest := ParseFid(a[left.consumed..] + b, checked || left.events != []);
      ParseFid(a + b, checked) ==
        FidParsed(left.events + MoveEvents(rest.events, left.consumed),
                  left.consumed + rest.consumed, rest.stop)
  {
    hide Look, EventOf, FidEventAt, Walk;
    var w := Walk(a, 0, checked);
    var p, c := a[..w.consumed], a[w.consumed..] + b;
    var still := checked || w.frames != [];
    assert a + b == p + c;
    WalkContinues(a, b, 0, checked);
    WalkMoves(p, c, 0, still);
    var r := Walk(c, 0, still);
    EventsOfPrefix(a, b, w.frames);
    EventsOfRest(p, c, r.frames);
    EventsJoin(a + b, w.frames, MoveFrames(r.frames, |p|));
  }

  lemma EventsOfPrefix(a: seq<byte>, b: seq<byte>, frames: seq<Frame>)
    requires AllFramesFit(frames, |a|)
    ensures AllFramesFit(frames, |a + b|)
    ensures FidEvents(a + b, frames) == FidEvents(a, frames)
  {
    hide EventOf, RebaseEvent;
    assert (a + b)[0..0 + |a|] == a[0..0 + |a|];
    EventsMove(a, a + b, 0, frames);
    assert MoveFrames(frames, 0) == frames;
    MoveNowhere(FidEvents(a, frames));
  }

  lemma EventsOfRest(p: seq<byte>, c: seq<byte>, frames: seq<Frame>)
    requires AllFramesFit(frames, |c|)
    ensures AllFramesFit(MoveFrames(frames, |p|), |p + c|)
    ensures FidEvents(p + c, MoveFrames(frames, |p|)) == MoveEvents(FidEvents(c, frames), |p|)
  {
    hide EventOf, RebaseEvent;
    assert (p + c)[|p|..|p| + |c|] == c[0..0 + |c|];
    EventsMove(c, p + c, |p|, frames);
  }

  lemma EventsJoin(buf: seq<byte>, left: seq<Frame>, right: seq<Frame>)
    requires AllFramesFit(left, |buf|) && AllFramesFit(right, |buf|)
    ensures AllFramesFit(left + right, |buf|)
    ensures FidEvents(buf, left + right) == FidEvents(buf, left) + FidEvents(buf, right)
  {
    hide EventOf;
  }

  // ----- The events tile what was consumed. -----

  // Event `k` lies where the one before it ended, and is as long as its own header says.
  ghost predicate TilesAt(buf: seq<byte>, frames: seq<Frame>, k: nat)
    requires k < |frames|
  {
    var start := FrameStart(0, frames, k);
    && start + METADATA_SIZE <= |buf|
    && frames[k].at == start && frames[k].meta == ReadMeta(buf, start)
    && frames[k].len == frames[k].meta.eventLen >= METADATA_SIZE
  }

  // Consumed and left make up the buffer, and the walk ends with `End` exactly when
  // nothing is left.
  lemma WalkTiles(buf: seq<byte>)
    ensures var w := Walk(buf, 0, false);
      var report := ReportOf(buf, w);
      && (forall k :: 0 <= k < |w.frames| ==> TilesAt(buf, w.frames, k))
      && report.bytesConsumed == FrameStart(0, w.frames, |w.frames|)
      && report.bytesConsumed + report.bytesLeft == |buf|
      && (report.stop == End <==> report.bytesLeft == 0)
  {
    hide Look, Walk;
    WalkIsWalk(buf, 0, false);
    var w := Walk(buf, 0, false);
    forall k | 0 <= k < |w.frames|
      ensures TilesAt(buf, w.frames, k)
    {
      assert IsFrameAt(buf, 0, false, w.frames, k);
      LookIs(buf, FrameStart(0, w.frames, k), k != 0);
    }
  }

  // ----- The same, said byte by byte. -----

  // Every event the walk takes: as long as its first four bytes say, which is at least
  // a header and at most what is left; the first one of version 3; its records start
  // where its header ends, which is within the event.
  lemma WalkTakes(buf: seq<byte>, k: nat)
    requires k < |Walk(buf, 0, false).frames|
    ensures var f := Walk(buf, 0, false).frames[k];
      var at := f.at;
      && at + 24 <= at + f.len <= |buf|
      && f.len == LeValue(buf[at..at + 4])
      && (k == 0 ==> at == 0 && buf[at + 4] == 3)
      && f.recordsStart == (if LeValue(buf[at + 6..at + 8]) < 24 then 24 else LeValue(buf[at + 6..at + 8])) <= f.len
      && f.meta.mask == LeValue(buf[at + 8..at + 16])
      && f.meta.fd == I32At(buf, at + 16) && f.meta.pid == I32At(buf, at + 20)
  {
    hide LeValue, Walk, AsI32;
    WalkIsWalk(buf, 0, false);
    var frames := Walk(buf, 0, false).frames;
    assert IsFrameAt(buf, 0, false, frames, k);
  }

  lemma LookStops(buf: seq<byte>, at: nat, checked: bool)
    requires at <= |buf| && Look(buf, at, checked).Stop?
    ensures var left, stop := |buf| - at, Look(buf, at, checked).stop;
      if left == 0 then stop == End
      else if left < 24 then stop == ShortHeader
      else
        var len := LeValue(buf[at..at + 4]);
        if !checked && buf[at + 4] != 3 then stop == UnknownVersion(buf[at + 4])
        else if len < 24 || len > left then stop == BadEventLen(len)
        else stop == BadMetadataLen && LeValue(buf[at + 6..at + 8]) > len
  {
    hide LeValue, AsI32;
  }

  // And where and why it stops, for every buffer.
  lemma WalkStops(buf: seq<byte>)
    ensures var w := Walk(buf, 0, false);
      var at, left := w.consumed, |buf| - w.consumed;
      if left == 0 then w.stop == End
      else if left < 24 then w.stop == ShortHeader
      else
        var len := LeValue(buf[at..at + 4]);
        if w.frames == [] && buf[at + 4] != 3 then w.stop == UnknownVersion(buf[at + 4])
        else if len < 24 || len > left then w.stop == BadEventLen(len)
        else w.stop == BadMetadataLen && LeValue(buf[at + 6..at + 8]) > len
  {
    hide LeValue, Walk, Look, IsFrameAt;
    WalkIsWalk(buf, 0, false);
    var w := Walk(buf, 0, false);
    LookStops(buf, w.consumed, w.frames != []);
  }
}
