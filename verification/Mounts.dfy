// Asking the filesystem: which mount descriptors may answer for a handle, and what
// the first one that can answers.
module Mounts {
  import opened Wrappers
  import opened Bytes
  import opened Wire

  const EIO: int := 5
  const EXDEV: int := 18
  const MAX_FILE_HANDLE_SIZE: nat := FILE_HANDLE_HEADER_SIZE + MAX_HANDLE_SZ

  datatype Error = Errno(n: int) | InvalidInput

  // A mount descriptor with the filesystem it is on, if the kernel would say.
  datatype Candidate = Candidate(fd: int, fsid: Option<Fsid>)

  // What `open_by_handle_at` against a descriptor and the `readlink` after it come
  // to: a path, or an errno when the failure carried one.
  type Filesystem = (int, Handle) -> Result<Path, Option<int>>

  predicate WantedFilesystem(known: Option<Fsid>, wanted: Option<Fsid>) {
    wanted.Some? && known.Some? ==> wanted == known
  }

  predicate HandleShaped(handle: Handle) {
    FILE_HANDLE_HEADER_SIZE <= |handle| <= MAX_FILE_HANDLE_SIZE
  }

  function ErrnoOr(e: Option<int>): int {
    if e.Some? then e.value else EIO
  }

  // The candidates that may be tried.
  function Selected(candidates: seq<Candidate>, wanted: Option<Fsid>): seq<Candidate> {
    if |candidates| == 0 then []
    else
      var n := |candidates| - 1;
      Selected(candidates[..n], wanted) +
      (if WantedFilesystem(candidates[n].fsid, wanted) then [candidates[n]] else [])
  }

  lemma {:induction false} SelectedAre(candidates: seq<Candidate>, wanted: Option<Fsid>)
    ensures forall c :: c in Selected(candidates, wanted) <==> c in candidates && WantedFilesystem(c.fsid, wanted)
  {
    hide WantedFilesystem;
    if |candidates| != 0 {
      var n := |candidates| - 1;
      SelectedAre(candidates[..n], wanted);
      assert candidates == candidates[..n] + [candidates[n]];
    }
  }

  // Candidate `i` is the first of the chosen that answers.
  ghost predicate FirstAnswer(fs: Filesystem, chosen: seq<Candidate>, handle: Handle, i: nat) {
    && i < |chosen| && fs(chosen[i].fd, handle).Ok?
    && forall j :: 0 <= j < i ==> fs(chosen[j].fd, handle).Err?
  }

  // ----- What asking comes to, said over all the candidates. -----

  // The candidate may be asked: nothing is wanted, or its filesystem is unknown, or it
  // is the one wanted.
  predicate Eligible(c: Candidate, wanted: Option<Fsid>) {
    wanted.None? || c.fsid.None? || c.fsid.value == wanted.value
  }

  // Candidate `i` is the first eligible one that answers.
  ghost predicate AnsweredBy(fs: Filesystem, candidates: seq<Candidate>, wanted: Option<Fsid>, handle: Handle, i: nat) {
    && i < |candidates| && Eligible(candidates[i], wanted) && fs(candidates[i].fd, handle).Ok?
    && forall j :: 0 <= j < i && Eligible(candidates[j], wanted) ==> fs(candidates[j].fd, handle).Err?
  }

  ghost predicate NobodyAnswers(fs: Filesystem, candidates: seq<Candidate>, wanted: Option<Fsid>, handle: Handle) {
    forall i :: 0 <= i < |candidates| && Eligible(candidates[i], wanted) ==> fs(candidates[i].fd, handle).Err?
  }

  predicate NobodyEligible(candidates: seq<Candidate>, wanted: Option<Fsid>) {
    forall i :: 0 <= i < |candidates| ==> !Eligible(candidates[i], wanted)
  }

  ghost predicate LastEligible(candidates: seq<Candidate>, wanted: Option<Fsid>, i: nat) {
    && i < |candidates| && Eligible(candidates[i], wanted)
    && forall j :: i < j < |candidates| ==> !Eligible(candidates[j], wanted)
  }

  // The failure of a candidate is this errno, and an I/O error when it carried none.
  predicate FailedWith(fs: Filesystem, c: Candidate, handle: Handle, errno: int) {
    && fs(c.fd, handle).Err?
    && match fs(c.fd, handle).error
       case Some(n) => errno == n
       case None => errno == 5
  }

  // The one answer for a handle: that of the first eligible candidate that answers;
  // the errno of the last eligible one when none does, and `EXDEV` when there is none;
  // a handle shorter than its own header or longer than any is refused.
  ghost predicate IsAnswer(fs: Filesystem, candidates: seq<Candidate>, wanted: Option<Fsid>, handle: Handle,
                           r: Result<Path, Error>)
  {
    if !(8 <= |handle| <= 136) then r == Err(InvalidInput)
    else
      && (forall i: nat :: AnsweredBy(fs, candidates, wanted, handle, i) ==> r == Ok(fs(candidates[i].fd, handle).value))
      && (NobodyAnswers(fs, candidates, wanted, handle) ==>
            && r.Err? && r.error.Errno?
            && (NobodyEligible(candidates, wanted) ==> r.error.n == 18)
            && forall i: nat :: LastEligible(candidates, wanted, i) ==> FailedWith(fs, candidates[i], handle, r.error.n))
  }

  // Asking one more candidate after the others.
  lemma {:induction false} AskAppends(fs: Filesystem, chosen: seq<Candidate>, c: Candidate, handle: Handle, last: int)
    ensures AskFrom(fs, chosen + [c], handle, last) ==
      match AskFrom(fs, chosen, handle, last)
      case Ok(path) => Ok(path)
      case Err(_) =>
        match fs(c.fd, handle)
        case Ok(path) => Ok(path)
        case Err(e) => Err(Errno(ErrnoOr(e)))
  {
    if |chosen| == 0 {
      assert chosen + [c] == [c];
    } else {
      assert (chosen + [c])[1..] == chosen[1..] + [c];
      match fs(chosen[0].fd, handle)
      case Ok(_) =>
      case Err(e) => AskAppends(fs, chosen[1..], c, handle, ErrnoOr(e));
    }
  }

  // What one more candidate, the last, changes about the answer: nothing once there is
  // one, or when it may not be asked.
  lemma AnswerStays(fs: Filesystem, init: seq<Candidate>, c: Candidate, wanted: Option<Fsid>, handle: Handle,
                    r: Result<Path, Error>)
    requires 8 <= |handle| <= 136 && IsAnswer(fs, init, wanted, handle, r)
    requires r.Ok? && !NobodyAnswers(fs, init, wanted, handle)
    ensures IsAnswer(fs, init + [c], wanted, handle, r) && !NobodyAnswers(fs, init + [c], wanted, handle)
  {
    hide Eligible;
    var all := init + [c];
    assert forall i :: 0 <= i < |init| ==> all[i] == init[i];
    var i := FindFirst(fs, init, wanted, handle);
    assert AnsweredBy(fs, init, wanted, handle, i);
    assert Eligible(all[i], wanted) && fs(all[i].fd, handle).Ok?;
    forall j: nat | AnsweredBy(fs, all, wanted, handle, j)
      ensures j == i
    {
      assert Eligible(all[j], wanted);
    }
  }

  lemma LastOfMore(init: seq<Candidate>, c: Candidate, wanted: Option<Fsid>)
    ensures NobodyEligible(init + [c], wanted) <==> NobodyEligible(init, wanted) && !Eligible(c, wanted)
    ensures forall j: nat :: LastEligible(init + [c], wanted, j) ==>
      if Eligible(c, wanted) then j == |init| else LastEligible(init, wanted, j)
  {
    hide Eligible;
    var all := init + [c];
    assert all[|init|] == c && forall i :: 0 <= i < |init| ==> all[i] == init[i];
    if NobodyEligible(all, wanted) {
      assert !Eligible(all[|init|], wanted);
      forall i | 0 <= i < |init|
        ensures !Eligible(init[i], wanted)
      {
        assert !Eligible(all[i], wanted);
      }
    }
    forall j: nat | LastEligible(all, wanted, j)
      ensures if Eligible(c, wanted) then j == |init| else LastEligible(init, wanted, j)
    {
      if j < |init| {
        assert !Eligible(all[|init|], wanted);
        forall k | j < k < |init|
          ensures !Eligible(init[k], wanted)
        {
          assert !Eligible(all[k], wanted);
        }
      }
    }
  }

  lemma NobodyIsNotOne(fs: Filesystem, init: seq<Candidate>, c: Candidate, wanted: Option<Fsid>, handle: Handle, j: nat)
    requires NobodyAnswers(fs, init, wanted, handle) && j < |init|
    ensures !AnsweredBy(fs, init + [c], wanted, handle, j)
  {
    assert (init + [c])[j] == init[j];
  }

  lemma AnswersOfMore(fs: Filesystem, init: seq<Candidate>, c: Candidate, wanted: Option<Fsid>, handle: Handle)
    requires NobodyAnswers(fs, init, wanted, handle)
    ensures var all := init + [c];
      && (NobodyAnswers(fs, all, wanted, handle) <==> (Eligible(c, wanted) ==> fs(c.fd, handle).Err?))
      && forall j: nat :: AnsweredBy(fs, all, wanted, handle, j) ==>
           j == |init| && Eligible(c, wanted) && fs(c.fd, handle).Ok?
  {
    hide Eligible;
    var all := init + [c];
    assert all[|init|] == c && forall i :: 0 <= i < |init| ==> all[i] == init[i];
    if NobodyAnswers(fs, all, wanted, handle) {
      assert Eligible(all[|init|], wanted) ==> fs(all[|init|].fd, handle).Err?;
    }
    forall j: nat | AnsweredBy(fs, all, wanted, handle, j)
      ensures j == |init|
    {
      if j < |init| {
        assert false by {
          NobodyIsNotOne(fs, init, c, wanted, handle, j);
        }
      }
    }
  }

  lemma AnswerMoves(fs: Filesystem, init: seq<Candidate>, c: Candidate, wanted: Option<Fsid>, handle: Handle,
                    r: Result<Path, Error>)
    requires 8 <= |handle| <= 136 && IsAnswer(fs, init, wanted, handle, r)
    requires r.Err? && NobodyAnswers(fs, init, wanted, handle)
    ensures var all := init + [c];
      var next := if !Eligible(c, wanted) then r
                  else
                    match fs(c.fd, handle)
                    case Ok(path) => Ok(path)
                    case Err(e) => Err(Errno(ErrnoOr(e)));
      IsAnswer(fs, all, wanted, handle, next) && (next.Ok? <==> !NobodyAnswers(fs, all, wanted, handle))
  {
    hide Eligible, AnsweredBy, LastEligible, NobodyAnswers, NobodyEligible;
    LastOfMore(init, c, wanted);
    AnswersOfMore(fs, init, c, wanted, handle);
    var all := init + [c];
    assert all[|init|] == c;
    forall j: nat | LastEligible(all, wanted, j) && !Eligible(c, wanted)
      ensures j < |init| && all[j] == init[j]
    {
      LastIsWithin(init, wanted, j);
    }
  }

  lemma LastIsWithin(candidates: seq<Candidate>, wanted: Option<Fsid>, i: nat)
    requires LastEligible(candidates, wanted, i)
    ensures i < |candidates|
  {
  }

  lemma {:induction false} AskIsTheAnswer(fs: Filesystem, candidates: seq<Candidate>, wanted: Option<Fsid>, handle: Handle)
    ensures var r := Ask(fs, Selected(candidates, wanted), handle);
      && IsAnswer(fs, candidates, wanted, handle, r)
      && (HandleShaped(handle) ==> (r.Ok? <==> !NobodyAnswers(fs, candidates, wanted, handle)))
  {
    hide AskFrom, IsAnswer, NobodyAnswers, Eligible, WantedFilesystem;
    NotShaped(fs, Selected(candidates, wanted), handle);
    if !HandleShaped(handle) {
      Refuses(fs, candidates, wanted, handle);
    } else if |candidates| == 0 {
      NothingToAsk(fs, wanted, handle);
    } else {
      var n := |candidates| - 1;
      var c := candidates[n];
      AskIsTheAnswer(fs, candidates[..n], wanted, handle);
      AskAppends(fs, Selected(candidates[..n], wanted), c, handle, EXDEV);
      var r := Ask(fs, Selected(candidates[..n], wanted), handle);
      if r.Ok? {
        AnswerStays(fs, candidates[..n], c, wanted, handle, r);
      } else {
        AnswerMoves(fs, candidates[..n], c, wanted, handle, r);
      }
      EligibleIs(c, wanted);
      var init := Selected(candidates[..n], wanted);
      assert init + [] == init;
      assert Selected(candidates, wanted) == if Eligible(c, wanted) then init + [c] else init;
      assert candidates == candidates[..n] + [c];
    }
  }

  lemma EligibleIs(c: Candidate, wanted: Option<Fsid>)
    ensures Eligible(c, wanted) <==> WantedFilesystem(c.fsid, wanted)
  {
  }

  lemma NothingToAsk(fs: Filesystem, wanted: Option<Fsid>, handle: Handle)
    requires HandleShaped(handle)
    ensures Ask(fs, [], handle) == Err(Errno(EXDEV)) && NobodyAnswers(fs, [], wanted, handle)
    ensures IsAnswer(fs, [], wanted, handle, Err(Errno(EXDEV)))
  {
  }

  lemma Refuses(fs: Filesystem, candidates: seq<Candidate>, wanted: Option<Fsid>, handle: Handle)
    requires !HandleShaped(handle)
    ensures IsAnswer(fs, candidates, wanted, handle, Err(InvalidInput))
  {
  }

  lemma NotShaped(fs: Filesystem, chosen: seq<Candidate>, handle: Handle)
    ensures HandleShaped(handle) <==> 8 <= |handle| <= 136
    ensures !HandleShaped(handle) ==> Ask(fs, chosen, handle) == Err(InvalidInput)
  {
  }

  // There is no other answer, and it is `EXDEV` if and only if nobody is eligible or
  // that is what the last eligible candidate failed with.
  lemma AnswerIsUnique(fs: Filesystem, candidates: seq<Candidate>, wanted: Option<Fsid>, handle: Handle,
                       r: Result<Path, Error>)
    requires IsAnswer(fs, candidates, wanted, handle, r)
    ensures forall s :: IsAnswer(fs, candidates, wanted, handle, s) ==> s == r
    ensures r == Err(Errno(18)) <==>
      && 8 <= |handle| <= 136 && NobodyAnswers(fs, candidates, wanted, handle)
      && (NobodyEligible(candidates, wanted)
          || exists i: nat :: LastEligible(candidates, wanted, i) && FailedWith(fs, candidates[i], handle, 18))
  {
    hide Eligible;
    if NobodyAnswers(fs, candidates, wanted, handle) {
      if !NobodyEligible(candidates, wanted) {
        var i := FindLast(candidates, wanted);
        assert LastEligible(candidates, wanted, i);
      }
    } else {
      var i := FindFirst(fs, candidates, wanted, handle);
      assert AnsweredBy(fs, candidates, wanted, handle, i);
    }
  }

  lemma {:induction false} FindLast(candidates: seq<Candidate>, wanted: Option<Fsid>) returns (i: nat)
    requires !NobodyEligible(candidates, wanted)
    ensures LastEligible(candidates, wanted, i)
  {
    hide Eligible;
    var n := |candidates| - 1;
    if Eligible(candidates[n], wanted) {
      i := n;
    } else {
      var j :| 0 <= j < |candidates| && Eligible(candidates[j], wanted);
      assert Eligible(candidates[..n][j], wanted);
      i := FindLast(candidates[..n], wanted);
      assert forall k :: i < k < n ==> candidates[..n][k] == candidates[k];
    }
  }

  lemma {:induction false} FindFirst(fs: Filesystem, candidates: seq<Candidate>, wanted: Option<Fsid>, handle: Handle)
      returns (i: nat)
    requires !NobodyAnswers(fs, candidates, wanted, handle)
    ensures AnsweredBy(fs, candidates, wanted, handle, i)
  {
    hide Eligible;
    var n := |candidates| - 1;
    var init := candidates[..n];
    if NobodyAnswers(fs, init, wanted, handle) {
      assert forall k :: 0 <= k < n ==> init[k] == candidates[k];
      i := n;
    } else {
      i := FindFirst(fs, init, wanted, handle);
      assert forall k :: 0 <= k < n ==> init[k] == candidates[k];
    }
  }

  function FdsOf(candidates: seq<Candidate>): seq<int> {
    seq(|candidates|, i requires 0 <= i < |candidates| => candidates[i].fd)
  }

  // What trying the chosen candidates in order comes to.
  function Ask(fs: Filesystem, chosen: seq<Candidate>, handle: Handle): Result<Path, Error> {
    if !HandleShaped(handle) then Err(InvalidInput) else AskFrom(fs, chosen, handle, EXDEV)
  }

  function AskFrom(fs: Filesystem, chosen: seq<Candidate>, handle: Handle, last: int): Result<Path, Error> {
    if |chosen| == 0 then Err(Errno(last))
    else
      match fs(chosen[0].fd, handle)
      case Ok(path) => Ok(path)
      case Err(e) => AskFrom(fs, chosen[1..], handle, ErrnoOr(e))
  }

  // The first candidate that answers is the answer; when none does it is the errno
  // of the last one tried, and `EXDEV` when none was.
  lemma AskIsFirstAnswer(fs: Filesystem, chosen: seq<Candidate>, handle: Handle)
    requires HandleShaped(handle)
    ensures forall i: nat :: FirstAnswer(fs, chosen, handle, i) ==> Ask(fs, chosen, handle) == Ok(fs(chosen[i].fd, handle).value)
    ensures (forall i :: 0 <= i < |chosen| ==> fs(chosen[i].fd, handle).Err?) ==>
      Ask(fs, chosen, handle) ==
        Err(Errno(if |chosen| == 0 then EXDEV else ErrnoOr(fs(chosen[|chosen| - 1].fd, handle).error)))
  {
    AskFromIsFirstAnswer(fs, chosen, handle, EXDEV);
  }

  lemma {:induction false} AskFromIsFirstAnswer(fs: Filesystem, chosen: seq<Candidate>, handle: Handle, last: int)
    ensures forall i: nat :: FirstAnswer(fs, chosen, handle, i) ==>
      AskFrom(fs, chosen, handle, last) == Ok(fs(chosen[i].fd, handle).value)
    ensures (forall i :: 0 <= i < |chosen| ==> fs(chosen[i].fd, handle).Err?) ==>
      AskFrom(fs, chosen, handle, last) ==
        Err(Errno(if |chosen| == 0 then last else ErrnoOr(fs(chosen[|chosen| - 1].fd, handle).error)))
  {
    if |chosen| != 0 && fs(chosen[0].fd, handle).Err? {
      var rest := chosen[1..];
      AskFromIsFirstAnswer(fs, rest, handle, ErrnoOr(fs(chosen[0].fd, handle).error));
      forall i: nat | FirstAnswer(fs, chosen, handle, i)
        ensures AskFrom(fs, chosen, handle, last) == Ok(fs(chosen[i].fd, handle).value)
      {
        assert i != 0;
        assert forall j :: 0 <= j < i - 1 ==> rest[j] == chosen[j + 1];
        assert FirstAnswer(fs, rest, handle, i - 1);
      }
      if forall i :: 0 <= i < |chosen| ==> fs(chosen[i].fd, handle).Err? {
        assert forall i :: 0 <= i < |rest| ==> rest[i] == chosen[i + 1];
      }
    }
  }

  // After `i` candidates: those tried so far all failed, `last` is what the last of
  // them failed with, and what is left decides.
  ghost predicate Tried(fs: Filesystem, candidates: seq<Candidate>, wanted: Option<Fsid>, handle: Handle,
                        i: nat, tried: seq<int>, last: int)
  {
    var chosen := Selected(candidates, wanted);
    && i <= |candidates| && |tried| <= |chosen|
    && |tried| == |Selected(candidates[..i], wanted)|
    && tried == FdsOf(chosen[..|tried|])
    && (forall k :: 0 <= k < |tried| ==> fs(tried[k], handle).Err?)
    && (tried == [] ==> last == EXDEV)
    && AskFrom(fs, chosen, handle, EXDEV) == AskFrom(fs, chosen[|tried|..], handle, last)
  }

  lemma TriedNone(fs: Filesystem, candidates: seq<Candidate>, wanted: Option<Fsid>, handle: Handle)
    ensures Tried(fs, candidates, wanted, handle, 0, [], EXDEV)
  {
  }

  lemma TriedSkips(fs: Filesystem, candidates: seq<Candidate>, wanted: Option<Fsid>, handle: Handle,
                   i: nat, tried: seq<int>, last: int)
    requires Tried(fs, candidates, wanted, handle, i, tried, last)
    requires i < |candidates| && !WantedFilesystem(candidates[i].fsid, wanted)
    ensures Tried(fs, candidates, wanted, handle, i + 1, tried, last)
  {
    hide Selected, AskFrom;
    SelectedStep(candidates, wanted, i);
  }

  lemma TriedNext(fs: Filesystem, candidates: seq<Candidate>, wanted: Option<Fsid>, handle: Handle,
                  i: nat, tried: seq<int>, last: int)
    requires Tried(fs, candidates, wanted, handle, i, tried, last)
    requires i < |candidates| && WantedFilesystem(candidates[i].fsid, wanted)
    ensures var chosen, fd := Selected(candidates, wanted), candidates[i].fd;
      && |tried| < |chosen| && tried + [fd] == FdsOf(chosen[..|tried| + 1])
      && match fs(fd, handle)
         case Ok(path) => AskFrom(fs, chosen, handle, EXDEV) == Ok(path)
         case Err(e) => Tried(fs, candidates, wanted, handle, i + 1, tried + [fd], ErrnoOr(e))
  {
    hide Selected;
    var chosen := Selected(candidates, wanted);
    SelectedStep(candidates, wanted, i);
    SelectedPrefix(candidates, wanted, i);
    var upTo := Selected(candidates[..i + 1], wanted);
    assert upTo[|tried|] == candidates[i] && upTo <= chosen;
    assert chosen[|tried|] == candidates[i];
    assert chosen[|tried|..][1..] == chosen[|tried| + 1..];
  }

  lemma TriedAll(fs: Filesystem, candidates: seq<Candidate>, wanted: Option<Fsid>, handle: Handle,
                 tried: seq<int>, last: int)
    requires Tried(fs, candidates, wanted, handle, |candidates|, tried, last)
    ensures tried == FdsOf(Selected(candidates, wanted))
    ensures AskFrom(fs, Selected(candidates, wanted), handle, EXDEV) == Err(Errno(last))
  {
    assert candidates[..|candidates|] == candidates;
  }

  // The descriptor is an eligible candidate's.
  ghost predicate MayBeOpened(candidates: seq<Candidate>, wanted: Option<Fsid>, fd: int) {
    exists i :: 0 <= i < |candidates| && candidates[i].fd == fd && Eligible(candidates[i], wanted)
  }

  lemma ChosenMayBeOpened(candidates: seq<Candidate>, wanted: Option<Fsid>)
    ensures forall fd :: fd in FdsOf(Selected(candidates, wanted)) <==> MayBeOpened(candidates, wanted, fd)
  {
    hide Selected, Eligible;
    var chosen := Selected(candidates, wanted);
    SelectedAre(candidates, wanted);
    forall fd
      ensures fd in FdsOf(chosen) <==> MayBeOpened(candidates, wanted, fd)
    {
      if fd in FdsOf(chosen) {
        var k :| 0 <= k < |chosen| && chosen[k].fd == fd;
        assert chosen[k] in chosen;
        EligibleIs(chosen[k], wanted);
        var i :| 0 <= i < |candidates| && candidates[i] == chosen[k];
      }
      if i :| 0 <= i < |candidates| && candidates[i].fd == fd && Eligible(candidates[i], wanted) {
        EligibleIs(candidates[i], wanted);
        assert candidates[i] in chosen;
        var k :| 0 <= k < |chosen| && chosen[k] == candidates[i];
        assert FdsOf(chosen)[k] == fd;
      }
    }
  }

  // `resolve_file_handle_in`, also saying which descriptors it opened the handle
  // against, in order: those chosen, up to and including the first that answered.
  method ResolveFileHandleIn(fs: Filesystem, candidates: seq<Candidate>, wanted: Option<Fsid>, handle: Handle)
      returns (r: Result<Path, Error>, tried: seq<int>)
    ensures r == Ask(fs, Selected(candidates, wanted), handle)
    ensures IsAnswer(fs, candidates, wanted, handle, r)
    ensures tried <= FdsOf(Selected(candidates, wanted))
    ensures !HandleShaped(handle) ==> tried == []
    ensures HandleShaped(handle) && r.Err? ==> tried == FdsOf(Selected(candidates, wanted))
    ensures forall k :: 0 <= k < |tried| && r.Ok? ==> (fs(tried[k], handle).Ok? <==> k == |tried| - 1)
    ensures forall fd :: fd in tried ==> MayBeOpened(candidates, wanted, fd)
    ensures HandleShaped(handle) && r.Err? ==> forall fd :: MayBeOpened(candidates, wanted, fd) ==> fd in tried
  {
    hide Selected, AskFrom, Tried, IsAnswer, MayBeOpened;
    AskIsTheAnswer(fs, candidates, wanted, handle);
    ChosenMayBeOpened(candidates, wanted);
    tried := [];
    if |handle| < FILE_HANDLE_HEADER_SIZE || |handle| > MAX_FILE_HANDLE_SIZE {
      return Err(InvalidInput), [];
    }
    var attempted, last := false, EXDEV;
    TriedNone(fs, candidates, wanted, handle);
    var i := 0;
    while i < |candidates|
      invariant i <= |candidates| && (attempted <==> tried != [])
      invariant Tried(fs, candidates, wanted, handle, i, tried, last)
    {
      var candidate := candidates[i];
      i := i + 1;
      if !WantedFilesystem(candidate.fsid, wanted) {
        TriedSkips(fs, candidates, wanted, handle, i - 1, tried, last);
        continue;
      }
      TriedNext(fs, candidates, wanted, handle, i - 1, tried, last);
      TriedFailed(fs, candidates, wanted, handle, i - 1, tried, last);
      attempted := true;
      tried := tried + [candidate.fd];
      match fs(candidate.fd, handle)
      case Ok(path) => return Ok(path), tried;
      case Err(e) => last := ErrnoOr(e);
    }
    TriedAll(fs, candidates, wanted, handle, tried, last);
    TriedFailed(fs, candidates, wanted, handle, i, tried, last);
    if !attempted {
      return Err(Errno(EXDEV)), tried;
    }
    return Err(Errno(last)), tried;
  }

  lemma TriedFailed(fs: Filesystem, candidates: seq<Candidate>, wanted: Option<Fsid>, handle: Handle,
                    i: nat, tried: seq<int>, last: int)
    requires Tried(fs, candidates, wanted, handle, i, tried, last)
    ensures forall k :: 0 <= k < |tried| ==> fs(tried[k], handle).Err?
    ensures tried == [] ==> last == EXDEV
  {
  }

  lemma SelectedStep(candidates: seq<Candidate>, wanted: Option<Fsid>, i: nat)
    requires i < |candidates|
    ensures Selected(candidates[..i + 1], wanted) ==
      Selected(candidates[..i], wanted) +
      (if WantedFilesystem(candidates[i].fsid, wanted) then [candidates[i]] else [])
    ensures Selected(candidates[..i + 1], wanted) <= Selected(candidates, wanted)
  {
    assert candidates[..i + 1][..i] == candidates[..i];
    SelectedPrefix(candidates, wanted, i + 1);
  }

  lemma {:induction false} SelectedPrefix(candidates: seq<Candidate>, wanted: Option<Fsid>, n: nat)
    requires n <= |candidates|
    ensures Selected(candidates[..n], wanted) <= Selected(candidates, wanted)
    decreases |candidates| - n
  {
    if n == |candidates| {
      assert candidates[..n] == candidates;
    } else {
      SelectedPrefix(candidates, wanted, n + 1);
      assert candidates[..n + 1][..n] == candidates[..n];
    }
  }

  // Handing over the selection `Mounts::matching` makes, unfiltered, asks the same.
  lemma MatchingAsksTheSame(fs: Filesystem, candidates: seq<Candidate>, wanted: Option<Fsid>, handle: Handle)
    ensures Ask(fs, Selected(Selected(candidates, wanted), None), handle) == Ask(fs, Selected(candidates, wanted), handle)
    ensures Selected(Selected(candidates, wanted), wanted) == Selected(candidates, wanted)
  {
    hide Selected, Ask;
    var chosen := Selected(candidates, wanted);
    SelectedAre(candidates, wanted);
    forall i | 0 <= i < |chosen|
      ensures WantedFilesystem(chosen[i].fsid, wanted) && WantedFilesystem(chosen[i].fsid, None)
    {
      assert chosen[i] in chosen;
    }
    KeepsAll(chosen, None);
    KeepsAll(chosen, wanted);
  }

  lemma {:induction false} KeepsAll(candidates: seq<Candidate>, wanted: Option<Fsid>)
    requires forall i :: 0 <= i < |candidates| ==> WantedFilesystem(candidates[i].fsid, wanted)
    ensures Selected(candidates, wanted) == candidates
  {
    hide WantedFilesystem;
    if |candidates| != 0 {
      var n := |candidates| - 1;
      KeepsAll(candidates[..n], wanted);
      assert candidates == candidates[..n] + [candidates[n]];
    }
  }

  // A descriptor whose filesystem is known to be another one is never tried.
  lemma ForeignNeverOpened(candidates: seq<Candidate>, wanted: Fsid, tried: seq<int>, fd: int)
    requires tried <= FdsOf(Selected(candidates, Some(wanted)))
    requires forall c :: c in candidates && c.fd == fd ==> c.fsid.Some? && c.fsid.value != wanted
    ensures fd !in tried
  {
    hide Selected;
    var chosen := Selected(candidates, Some(wanted));
    SelectedAre(candidates, Some(wanted));
    forall k | 0 <= k < |tried|
      ensures tried[k] != fd
    {
      assert chosen[k] in chosen;
    }
  }
}
