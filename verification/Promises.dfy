// What resolving promises, said over the bytes of a name, the candidates, and the
// fields of an event: an account of it that does not compute it.
module Promises {
  import opened Wrappers
  import opened Bytes
  import opened Wire
  import opened Events
  import opened Paths
  import opened Mounts
  import opened HandleCaches
  import opened Resolving

  // No separator, no NUL, and not `..`.
  predicate Acceptable(name: Name) {
    47 !in name && 0 !in name && name != [46, 46]
  }

  // The entry's path under its directory: the directory itself for an empty name and
  // `.`, and otherwise the directory, one separator and the name.
  ghost predicate Under(dir: Path, name: Name, path: Path) {
    if name == [] || name == [46] then path == dir
    else
      && path == (if dir == [] || dir[|dir| - 1] == 47 then dir else dir + [47]) + name
      && Components(path) == Components(dir) + [Normal(name)]
  }

  // The path of a handle: the one known, or else the filesystem's, if it may be asked.
  ghost predicate Has(src: Source, known: Known, fsid: Fsid, handle: Handle, path: Path) {
    if (fsid, handle) in known then path == known[(fsid, handle)]
    else src.fallback && IsAnswer(src.fs, src.candidates, Some(fsid), handle, Ok(path))
  }

  // The path of the entry `name` of the directory that has the handle.
  ghost predicate EntryHas(src: Source, known: Known, fsid: Fsid, handle: Handle, name: Name, path: Path) {
    Acceptable(name) && exists dir :: Has(src, known, fsid, handle, dir) && Under(dir, name, path)
  }

  // The three routes an event offers. An entry without a name is the directory.
  ghost predicate EntryRoute(src: Source, known: Known, ev: Event, path: Path) {
    && ev.fsid.Some? && ev.dfidNameHandle.Some?
    && match ev.dfidNameName
       case Some(name) => EntryHas(src, known, ev.fsid.value, ev.dfidNameHandle.value.bytes, name.bytes, path)
       case None => Has(src, known, ev.fsid.value, ev.dfidNameHandle.value.bytes, path)
  }

  ghost predicate SourceRoute(src: Source, known: Known, ev: Event, path: Path) {
    && ev.fsid.Some? && ev.renameSource.Some?
    && EntryHas(src, known, ev.fsid.value, ev.renameSource.value.handle.bytes, ev.renameSource.value.name.bytes, path)
  }

  ghost predicate OwnRoute(src: Source, known: Known, ev: Event, path: Path) {
    ev.fsid.Some? && ev.selfHandle.Some? && Has(src, known, ev.fsid.value, ev.selfHandle.value.bytes, path)
  }

  // The path noted under the event's own handle, if it names one.
  ghost predicate NotesOwn(ev: Event, path: Path, memo: Known, after: Known) {
    after == if ev.fsid.Some? && ev.selfHandle.Some?
             then memo[(ev.fsid.value, ev.selfHandle.value.bytes) := path] else memo
  }

  // The first route that gives a path gives it to the event; what it notes.
  ghost predicate Gives(src: Source, known: Known, ev: Event, path: Path, memo: Known, after: Known) {
    if EntryRoute(src, known, ev, path) then NotesOwn(ev, path, memo, after)
    else
      && (forall p :: !EntryRoute(src, known, ev, p))
      && if SourceRoute(src, known, ev, path) then after == memo
         else
           && (forall p :: !SourceRoute(src, known, ev, p))
           && OwnRoute(src, known, ev, path) && NotesOwn(ev, path, memo, after)
  }

  // The whole of what resolving `ev` does: the answer, the event as it is left, and
  // the memo before and after.
  ghost predicate Promised(src: Source, known: Known, ev: Event, kind: EventResolution, now: Event,
                           memo: Known, after: Known)
  {
    && (kind.AlreadyResolved? <==> ev.path.Some?)
    && (kind.NothingToResolve? <==> ev.path.None? && ev.fsid.None?)
    && (kind.Unresolvable? <==>
          && ev.path.None? && ev.fsid.Some?
          && forall p :: !EntryRoute(src, known, ev, p) && !SourceRoute(src, known, ev, p) && !OwnRoute(src, known, ev, p))
    && (kind.Resolved? ==> now.path.Some? && now == ev.(path := now.path)
                           && Gives(src, known, ev, now.path.value, memo, after))
    && (!kind.Resolved? ==> now == ev && after == memo)
  }

  // ----- What the resolver computes is what is promised. -----

  lemma JoinIsUnder(dir: Path, name: Name)
    ensures Refused(name) <==> !Acceptable(name)
    ensures Acceptable(name) ==> Under(dir, name, JoinDir(dir, name))
  {
    hide Components;
    if Acceptable(name) {
      JoinAddsOneComponent(dir, name);
      if name != [] && name != [46] {
        assert dir + ([47] + name) == (dir + [47]) + name;
      }
    }
  }

  lemma LookupHas(src: Source, known: Known, fsid: Fsid, handle: Handle)
    ensures forall path :: Lookup(src, known, fsid, handle) == Ok(path) <==> Has(src, known, fsid, handle, path)
    ensures (fsid, handle) !in known && src.fallback ==>
      IsAnswer(src.fs, src.candidates, Some(fsid), handle, Lookup(src, known, fsid, handle))
    ensures (fsid, handle) !in known && !src.fallback ==> Lookup(src, known, fsid, handle) == Err(Errno(18))
  {
    hide IsAnswer, Ask, Selected;
    AskIsTheAnswer(src.fs, src.candidates, Some(fsid), handle);
    AnswerIsUnique(src.fs, src.candidates, Some(fsid), handle,
                   Ask(src.fs, Selected(src.candidates, Some(fsid)), handle));
  }

  lemma EntryLookupHas(src: Source, known: Known, fsid: Fsid, handle: Handle, name: Name)
    ensures forall path :: LookupDir(src, known, fsid, handle, name) == Ok(path) <==>
      EntryHas(src, known, fsid, handle, name, path)
    ensures !Acceptable(name) ==> LookupDir(src, known, fsid, handle, name) == Err(InvalidInput)
    ensures Acceptable(name) && Lookup(src, known, fsid, handle).Err? ==>
      LookupDir(src, known, fsid, handle, name) == Lookup(src, known, fsid, handle)
  {
    hide Lookup, Has, Refused, JoinDir, Acceptable, Under;
    LookupHas(src, known, fsid, handle);
    match Lookup(src, known, fsid, handle)
    case Ok(dir) =>
      JoinIsUnder(dir, name);
      if Acceptable(name) {
        UnderIsOne(dir, name, JoinDir(dir, name));
      }
    case Err(_) => JoinIsUnder([], name);
  }

  lemma UnderIsOne(dir: Path, name: Name, path: Path)
    requires Under(dir, name, path)
    ensures forall p :: Under(dir, name, p) ==> p == path
  {
    hide Components;
  }

  lemma RoutesArePromised(src: Source, known: Known, ev: Event)
    ensures forall p :: ByEntry(src, known, ev) == Some(p) <==> EntryRoute(src, known, ev, p)
    ensures forall p :: BySource(src, known, ev) == Some(p) <==> SourceRoute(src, known, ev, p)
    ensures forall p :: ByOwnHandle(src, known, ev) == Some(p) <==> OwnRoute(src, known, ev, p)
  {
    hide Lookup, LookupDir, Has, EntryHas;
    if ev.fsid.Some? {
      var f := ev.fsid.value;
      if ev.dfidNameHandle.Some? {
        var h := ev.dfidNameHandle.value.bytes;
        if ev.dfidNameName.Some? {
          EntryLookupHas(src, known, f, h, ev.dfidNameName.value.bytes);
        } else {
          NamelessIsTheDirectory(src, known, f, h);
        }
      }
      if ev.renameSource.Some? {
        EntryLookupHas(src, known, f, ev.renameSource.value.handle.bytes, ev.renameSource.value.name.bytes);
      }
      if ev.selfHandle.Some? {
        LookupHas(src, known, f, ev.selfHandle.value.bytes);
      }
    }
  }

  lemma NamelessIsTheDirectory(src: Source, known: Known, fsid: Fsid, handle: Handle)
    ensures forall path :: LookupDir(src, known, fsid, handle, []) == Ok(path) <==> Has(src, known, fsid, handle, path)
  {
    hide Lookup, Has;
    LookupHas(src, known, fsid, handle);
  }

  lemma ResolveIsPromised(src: Source, known: Known, ev: Event, memo: Known)
    ensures var o := Resolve(src, known, ev);
      Promised(src, known, ev, o.kind, Settle(ev, o), memo, Knows(memo, o))
  {
    hide ByEntry, BySource, ByOwnHandle, EntryRoute, SourceRoute, OwnRoute;
    RoutesArePromised(src, known, ev);
    RoutesNeedAFilesystem(src, known, ev);
    var o := Resolve(src, known, ev);
    if o.path.Some? {
      var p := o.path.value;
      assert ByEntry(src, known, ev) == Some(p) <==> EntryRoute(src, known, ev, p);
      assert BySource(src, known, ev) == Some(p) <==> SourceRoute(src, known, ev, p);
      assert ByOwnHandle(src, known, ev) == Some(p) <==> OwnRoute(src, known, ev, p);
    }
  }

  lemma RoutesNeedAFilesystem(src: Source, known: Known, ev: Event)
    ensures ByOwnHandle(src, known, ev).Some? ==> ev.fsid.Some? && ev.selfHandle.Some?
    ensures OwnKey(ev).Some? <==> ev.fsid.Some? && ev.selfHandle.Some?
  {
  }

  // ----- The case every watcher meets: an entry of a directory that is known. -----

  predicate HasKnownDirectory(known: Known, ev: Event) {
    && ev.path.None? && ev.fsid.Some? && ev.dfidNameHandle.Some?
    && (ev.fsid.value, ev.dfidNameHandle.value.bytes) in known
  }

  // The event gets the directory's path with its name as one more component, or the
  // directory's own path when it has no name, or one that says so.
  ghost predicate KnownEntryGivesPath(known: Known, ev: Event, now: Event) {
    HasKnownDirectory(known, ev) ==>
      var dir := known[(ev.fsid.value, ev.dfidNameHandle.value.bytes)];
      match ev.dfidNameName
      case None => now.path == Some(dir)
      case Some(name) =>
        && (name.bytes == [] || name.bytes == [46] ==> now.path == Some(dir))
        && (47 !in name.bytes && 0 !in name.bytes && name.bytes !in [[], [46], [46, 46]] ==>
              && now.path.Some?
              && Components(now.path.value) == Components(dir) + [Normal(name.bytes)])
  }

  // And that path is noted under the event's own handle.
  ghost predicate KnownEntryIsNoted(known: Known, ev: Event, now: Event, memo: Known, after: Known) {
    HasKnownDirectory(known, ev) && ev.selfHandle.Some?
    && (ev.dfidNameName.Some? ==>
          var name := ev.dfidNameName.value.bytes;
          47 !in name && 0 !in name && name != [46, 46])
    ==>
      now.path.Some? && after == memo[(ev.fsid.value, ev.selfHandle.value.bytes) := now.path.value]
  }

  lemma InKnownDirectory(src: Source, known: Known, ev: Event, memo: Known)
    ensures var o := Resolve(src, known, ev);
      && KnownEntryGivesPath(known, ev, Settle(ev, o))
      && KnownEntryIsNoted(known, ev, Settle(ev, o), memo, Knows(memo, o))
  {
    hide AskSource, Components, Refused, JoinDir;
    if HasKnownDirectory(known, ev) {
      JoinIsUnder(known[(ev.fsid.value, ev.dfidNameHandle.value.bytes)], NameBytes(ev));
    }
  }

  // ----- A pass, one event after the other. -----

  function MemoOf(k: Knowledge): Known {
    match k
    case Shared(both) => both
    case Apart(_, memo) => memo
  }

  // Event `k` of a pass is resolved against what the events before it have left, and
  // is counted as what came of it.
  lemma PassIsPromised(src: Source, know: Knowledge, es: seq<Event>, k: nat)
    requires k < |es|
    ensures PassUpTo(src, know, es, 0) == PassState(know, [], 0, 0, 0)
    ensures var s, next := PassUpTo(src, know, es, k), PassUpTo(src, know, es, k + 1);
      && next.done[..k] == s.done
      && exists kind ::
        && Promised(src, ReadFrom(s.know), es[k], kind, next.done[k], MemoOf(s.know), MemoOf(next.know))
        && next.newly == s.newly + (if kind.Resolved? then 1 else 0)
        && next.already == s.already + (if kind.AlreadyResolved? then 1 else 0)
        && next.unresolved == s.unresolved + (if kind.Unresolvable? || kind.NothingToResolve? then 1 else 0)
  {
    hide Promised, Resolve, Settle, Knows;
    var s := PassUpTo(src, know, es, k);
    ResolveIsPromised(src, ReadFrom(s.know), es[k], MemoOf(s.know));
    var kind := Resolve(src, ReadFrom(s.know), es[k]).kind;
    assert PassUpTo(src, know, es, k + 1).done[k] == Settle(es[k], Resolve(src, ReadFrom(s.know), es[k]));
  }
}
