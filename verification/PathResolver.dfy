// The resolver as it runs: lookups that change nothing, events whose path is
// written in place, and the loop that repeats passes over a slice of them.
module PathResolvers {
  import opened Wrappers
  import opened Bytes
  import opened Wire
  import opened Events
  import opened Paths
  import opened Mounts
  import opened HandleCaches
  import opened Resolving
  import opened Promises
  import opened FidParser

  // What a resolver over `store` knows when it learns into `memo`.
  ghost function KnowledgeOf(store: HandleCache, memo: HandleCache): Knowledge
    reads store, memo
  {
    if store == memo then Shared(store.View()) else Apart(store.View(), memo.View())
  }

  function ViewsOf(events: seq<FidEvent>): seq<Event>
    reads events
  {
    seq(|events|, i requires 0 <= i < |events| reads events => events[i].View())
  }

  // A slice of events: no object twice.
  predicate IsSlice(events: seq<FidEvent>) {
    forall i, j :: 0 <= i < j < |events| ==> events[i] != events[j]
  }

  class PathResolver {
    const store: HandleCache
    const mounts: seq<Candidate>
    const fs: Filesystem
    var syscallFallback: bool

    function Src(): Source
      reads this
    {
      Source(fs, mounts, syscallFallback)
    }

    constructor (store: HandleCache, mounts: seq<Candidate>, fs: Filesystem)
      ensures this.store == store && this.mounts == mounts && this.fs == fs && syscallFallback
    {
      this.store, this.mounts, this.fs, syscallFallback := store, mounts, fs, true;
    }

    method SetSyscallFallback(enabled: bool)
      modifies this
      ensures syscallFallback == enabled
    {
      syscallFallback := enabled;
    }

    // `tried` are the descriptors the handle was opened against: none on a hit.
    method ResolveHandle(fsid: Fsid, handle: Handle) returns (r: Result<Path, Error>, tried: seq<int>)
      ensures r == Lookup(Src(), store.View(), fsid, handle)
      ensures if (fsid, handle) in store.View() then r == Ok(store.View()[(fsid, handle)])
              else if syscallFallback then IsAnswer(fs, mounts, Some(fsid), handle, r)
              else r == Err(Errno(18))
      ensures (fsid, handle) in store.View() || !syscallFallback ==> tried == []
      ensures tried <= FdsOf(Selected(mounts, Some(fsid)))
    {
      hide Flat, Selected, Ask, IsAnswer;
      var hit := store.PathOf(fsid, handle);
      if hit.Some? {
        return Ok(hit.value), [];
      }
      if !syscallFallback {
        return Err(Errno(EXDEV)), [];
      }
      r, tried := ResolveFileHandleIn(fs, mounts, Some(fsid), handle);
    }

    method ResolveHandleMemo(memo: HandleCache, fsid: Fsid, handle: Handle) returns (r: Result<Path, Error>)
      requires memo.Valid()
      modifies memo
      ensures memo.Valid()
      ensures r == old(Lookup(Src(), store.View(), fsid, handle))
      ensures forall path :: r == Ok(path) <==> old(Has(Src(), store.View(), fsid, handle, path))
      ensures memo.View() == if r.Ok? then old(memo.View())[(fsid, handle) := r.value] else old(memo.View())
    {
      hide Flat, Lookup, Has;
      LookupHas(Src(), store.View(), fsid, handle);
      var tried;
      r, tried := ResolveHandle(fsid, handle);
      if r.Ok? {
        memo.Remember(fsid, handle, r.value);
      }
    }

    // A refused name consults nothing, and a hit opens nothing.
    method ResolveDir(fsid: Fsid, handle: Handle, name: Name) returns (r: Result<Path, Error>, tried: seq<int>)
      ensures r == LookupDir(Src(), store.View(), fsid, handle, name)
      ensures forall path :: r == Ok(path) <==> EntryHas(Src(), store.View(), fsid, handle, name, path)
      ensures 47 in name || 0 in name || name == [46, 46] ==> r == Err(InvalidInput) && tried == []
      ensures (fsid, handle) in store.View() ==> (r.Ok? <==> 47 !in name && 0 !in name && name != [46, 46])
      ensures (fsid, handle) in store.View() && r.Ok? ==>
        var dir := store.View()[(fsid, handle)];
        if name == [] || name == [46] then r.value == dir else Components(r.value) == Components(dir) + [Normal(name)]
      ensures Refused(name) || (fsid, handle) in store.View() || !syscallFallback ==> tried == []
      ensures tried <= FdsOf(Selected(mounts, Some(fsid)))
    {
      hide Flat, Selected, Ask, Push, IsAnswer, EntryHas;
      EntryLookupHas(Src(), store.View(), fsid, handle, name);
      JoinIsUnder(if (fsid, handle) in store.View() then store.View()[(fsid, handle)] else [], name);
      tried := [];
      if name != [] && name != [DOT] {
        if SLASH in name || 0 in name || name == [DOT, DOT] {
          return Err(InvalidInput), [];
        }
        var hit := store.PathOf(fsid, handle);
        if hit.Some? {
          return Ok(Push(hit.value, name)), [];
        }
      } else {
        var hit := store.PathOf(fsid, handle);
        if hit.Some? {
          return Ok(hit.value), [];
        }
      }
      if !syscallFallback {
        return Err(Errno(EXDEV)), [];
      }
      r, tried := ResolveFileHandleIn(fs, mounts, Some(fsid), handle);
      if r.Err? || name == [] || name == [DOT] {
        return;
      }
      r := Ok(Push(r.value, name));
    }

    method ResolveRenameTarget(event: FidEvent) returns (r: Option<Result<Path, Error>>)
      ensures r.Some? <==> event.fsid.Some? && event.renameTarget.Some?
      ensures r.Some? ==>
        r.value == LookupDir(Src(), store.View(), event.fsid.value, event.renameTarget.value.handle.bytes,
                             event.renameTarget.value.name.bytes)
      ensures r.Some? ==> forall path :: r.value == Ok(path) <==>
        EntryHas(Src(), store.View(), event.fsid.value, event.renameTarget.value.handle.bytes,
                 event.renameTarget.value.name.bytes, path)
    {
      hide LookupDir, EntryHas;
      if event.fsid.None? || event.renameTarget.None? {
        return None;
      }
      var side := event.renameTarget.value;
      var path, _ := ResolveDir(event.fsid.value, side.handle.bytes, side.name.bytes);
      return Some(path);
    }

    method ResolveEvent(event: FidEvent) returns (kind: EventResolution)
      modifies event`path
      ensures var o := Resolve(Src(), store.View(), old(event.View()));
        kind == o.kind && event.View() == Settle(old(event.View()), o)
      ensures kind.NothingToResolve? <==> old(event.path).None? && event.fsid.None?
      ensures KnownEntryGivesPath(old(store.View()), old(event.View()), event.View())
      ensures exists noted :: Promised(Src(), store.View(), old(event.View()), kind, event.View(), map[], noted)
    {
      hide Flat, Lookup, LookupDir, Promised, EntryHas, KnownEntryGivesPath;
      ResolveIsPromised(Src(), store.View(), event.View(), map[]);
      InKnownDirectory(Src(), store.View(), event.View(), map[]);
      if event.path.Some? {
        return AlreadyResolved;
      }
      if event.fsid.None? {
        return NothingToResolve;
      }
      var fsid := event.fsid.value;
      if event.dfidNameHandle.Some? {
        var name := if event.dfidNameName.Some? then event.dfidNameName.value.bytes else [];
        var path, _ := ResolveDir(fsid, event.dfidNameHandle.value.bytes, name);
        if path.Ok? {
          event.SetPath(path.value);
          return Resolved;
        }
      }
      if event.renameSource.Some? {
        var side := event.renameSource.value;
        var path, _ := ResolveDir(fsid, side.handle.bytes, side.name.bytes);
        if path.Ok? {
          event.SetPath(path.value);
          return Resolved;
        }
      }
      if event.selfHandle.Some? {
        var path, _ := ResolveHandle(fsid, event.selfHandle.value.bytes);
        if path.Ok? {
          event.SetPath(path.value);
          return Resolved;
        }
      }
      return Unresolvable;
    }

    // The three routes in turn, recording as it goes.
    method TakeRoute(memo: HandleCache, event: FidEvent) returns (kind: EventResolution)
      requires memo.Valid()
      modifies memo, event`path
      ensures memo.Valid()
      ensures var o := old(Resolve(Src(), store.View(), event.View()));
        && kind == o.kind && event.View() == Settle(old(event.View()), o)
        && memo.View() == Knows(old(memo.View()), o)
    {
      hide Flat, Lookup, LookupDir, HandleCaches.NoEmptyLevel, EntryHas;
      if event.path.Some? {
        return AlreadyResolved;
      }
      if event.fsid.None? {
        return NothingToResolve;
      }
      var fsid := event.fsid.value;
      if event.dfidNameHandle.Some? {
        var name := if event.dfidNameName.Some? then event.dfidNameName.value.bytes else [];
        var path, _ := ResolveDir(fsid, event.dfidNameHandle.value.bytes, name);
        if path.Ok? {
          if event.selfHandle.Some? {
            memo.Remember(fsid, event.selfHandle.value.bytes, path.value);
          }
          event.SetPath(path.value);
          return Resolved;
        }
      }
      if event.renameSource.Some? {
        var side := event.renameSource.value;
        var path, _ := ResolveDir(fsid, side.handle.bytes, side.name.bytes);
        if path.Ok? {
          event.SetPath(path.value);
          return Resolved;
        }
      }
      if event.selfHandle.Some? {
        var path, _ := ResolveHandle(fsid, event.selfHandle.value.bytes);
        if path.Ok? {
          memo.Remember(fsid, event.selfHandle.value.bytes, path.value);
          event.SetPath(path.value);
          return Resolved;
        }
      }
      return Unresolvable;
    }

    method ResolveEventMemo(memo: HandleCache, event: FidEvent) returns (kind: EventResolution)
      requires memo.Valid()
      modifies memo, event`path
      ensures memo.Valid()
      ensures var o := old(Resolve(Src(), store.View(), event.View()));
        && kind == o.kind && event.View() == Settle(old(event.View()), o)
        && KnowledgeOf(store, memo) == Learn(old(KnowledgeOf(store, memo)), o)
      ensures kind.NothingToResolve? <==> old(event.path).None? && event.fsid.None?
      ensures KnownEntryGivesPath(old(store.View()), old(event.View()), event.View())
      ensures KnownEntryIsNoted(old(store.View()), old(event.View()), event.View(), old(memo.View()), memo.View())
      ensures Promised(Src(), old(store.View()), old(event.View()), kind, event.View(), old(memo.View()), memo.View())
    {
      hide Flat, HandleCaches.NoEmptyLevel, Promised, KnownEntryGivesPath, KnownEntryIsNoted, Settle, Knows,
           ByEntry, BySource, ByOwnHandle;
      ResolveIsPromised(Src(), store.View(), event.View(), memo.View());
      InKnownDirectory(Src(), store.View(), event.View(), memo.View());
      ResolveCounts(Src(), store.View(), event.View());
      kind := TakeRoute(memo, event);
    }

    // One pass that only reads: nothing an event learns reaches the next one.
    method ResolveEvents(events: seq<FidEvent>) returns (resolution: Resolution)
      requires IsSlice(events)
      modifies events
      ensures var s := Pass(Src(), Apart(store.View(), map[]), old(ViewsOf(events)));
        && ViewsOf(events) == s.done
        && resolution == Resolution(s.newly, s.already, s.unresolved, 1)
      ensures forall k :: 0 <= k < |events| ==>
        events[k].View() == Settle(old(ViewsOf(events))[k], Resolve(Src(), store.View(), old(ViewsOf(events))[k]))
    {
      hide Flat, Resolve, Settle, FidEvent.View, PassUpTo, Promised, KnownEntryGivesPath, Knows;
      ghost var was := ViewsOf(events);
      var newly, already, unresolved, i := 0, 0, 0, 0;
      PassStarts(Src(), Apart(store.View(), map[]), was);
      while i < |events|
        invariant i <= |events|
        invariant forall k :: i <= k < |events| ==> events[k].View() == was[k]
        invariant forall k :: 0 <= k < i ==> events[k].View() == PassUpTo(Src(), Apart(store.View(), map[]), was, i).done[k]
        invariant var s := PassUpTo(Src(), Apart(store.View(), map[]), was, i);
          ReadFrom(s.know) == store.View() && newly == s.newly && already == s.already && unresolved == s.unresolved
      {
        ReadOnlyStep(Src(), store.View(), was, i);
        var kind := ResolveEvent(events[i]);
        match kind {
          case Resolved => newly := newly + 1;
          case AlreadyResolved => already := already + 1;
          case _ => unresolved := unresolved + 1;
        }
        i := i + 1;
      }
      ReadOnlyPass(Src(), store.View(), was, i);
      return Resolution(newly, already, unresolved, 1);
    }

    // Where a pass stands: the events before `|s.done|` are done, the others as they
    // were, and what is known is what the pass has learned.
    ghost predicate MidPass(memo: HandleCache, events: seq<FidEvent>, was: seq<Event>, s: PassState)
      reads store, memo, events
    {
      && memo.Valid() && IsSlice(events)
      && |s.done| <= |events| == |was|
      && KnowledgeOf(store, memo) == s.know
      && (forall k :: 0 <= k < |s.done| ==> events[k].View() == s.done[k])
      && (forall k :: |s.done| <= k < |events| ==> events[k].View() == was[k])
    }

    method ResolveNext(memo: HandleCache, events: seq<FidEvent>, ghost was: seq<Event>, ghost s: PassState, i: nat)
        returns (kind: EventResolution)
      requires MidPass(memo, events, was, s) && i == |s.done| < |events|
      modifies memo, events[i]
      ensures MidPass(memo, events, was, PassStep(Src(), s, was[i]))
      ensures kind == Resolve(Src(), ReadFrom(s.know), was[i]).kind
    {
      hide Flat, Resolve, Settle, Learn, FidEvent.View, HandleCaches.NoEmptyLevel;
      assert ReadFrom(s.know) == store.View();
      assert events[i].View() == was[i];
      kind := ResolveEventMemo(memo, events[i]);
    }

    // One pass over the slice, learning as it goes.
    method PassMemo(memo: HandleCache, events: seq<FidEvent>) returns (newly: nat, already: nat, unresolved: nat)
      requires memo.Valid() && IsSlice(events)
      modifies memo, events
      ensures memo.Valid()
      ensures var s := Pass(Src(), old(KnowledgeOf(store, memo)), old(ViewsOf(events)));
        && KnowledgeOf(store, memo) == s.know && ViewsOf(events) == s.done
        && newly == s.newly && already == s.already && unresolved == s.unresolved
    {
      hide Flat, Resolve, Settle, Learn, KnowledgeOf, FidEvent.View, HandleCaches.NoEmptyLevel, PassStep, PassUpTo, MidPass;
      ghost var was, know := ViewsOf(events), KnowledgeOf(store, memo);
      ghost var s := PassState(know, [], 0, 0, 0);
      newly, already, unresolved := 0, 0, 0;
      var i := 0;
      PassStarts(Src(), know, was);
      MidPassStarts(memo, events);
      while i < |events|
        invariant i <= |events| && s == PassUpTo(Src(), know, was, i)
        invariant MidPass(memo, events, was, s)
        invariant newly == s.newly && already == s.already && unresolved == s.unresolved
      {
        var kind := ResolveNext(memo, events, was, s, i);
        match kind {
          case Resolved => newly := newly + 1;
          case AlreadyResolved => already := already + 1;
          case _ => unresolved := unresolved + 1;
        }
        PassNext(Src(), know, was, i);
        StepCounts(Src(), s, was[i]);
        s := PassStep(Src(), s, was[i]);
        i := i + 1;
      }
      MidPassEnds(memo, events, was, s);
    }

    lemma MidPassStarts(memo: HandleCache, events: seq<FidEvent>)
      requires memo.Valid() && IsSlice(events)
      ensures MidPass(memo, events, ViewsOf(events), PassState(KnowledgeOf(store, memo), [], 0, 0, 0))
    {
      hide Flat, FidEvent.View;
    }

    lemma MidPassEnds(memo: HandleCache, events: seq<FidEvent>, was: seq<Event>, s: PassState)
      requires MidPass(memo, events, was, s) && |s.done| == |events|
      ensures memo.Valid() && KnowledgeOf(store, memo) == s.know && ViewsOf(events) == s.done
    {
      hide Flat, FidEvent.View;
    }

    // Passes until one resolves nothing new; the counts are those of the last pass
    // that did, or of the first when none did.
    method ResolveEventsMemo(memo: HandleCache, events: seq<FidEvent>) returns (resolution: Resolution)
      requires memo.Valid() && IsSlice(events)
      modifies memo, events
      ensures memo.Valid()
      ensures var r := Run(Src(), old(KnowledgeOf(store, memo)), old(ViewsOf(events)));
        && KnowledgeOf(store, memo) == r.know && ViewsOf(events) == r.events && resolution == r.resolution
      ensures exists n :: RanFor(Src(), old(KnowledgeOf(store, memo)), old(ViewsOf(events)), n,
                                 KnowledgeOf(store, memo), ViewsOf(events), resolution)
    {
      hide Flat, Pass, HandleCaches.NoEmptyLevel, RanFor;
      RunIsIteration(Src(), KnowledgeOf(store, memo), ViewsOf(events));
      ghost var know, was := KnowledgeOf(store, memo), ViewsOf(events);
      var passes := 0;
      var best := NOTHING;
      while true
        invariant memo.Valid()
        invariant Run(Src(), know, was) == RunFrom(Src(), KnowledgeOf(store, memo), ViewsOf(events), passes, best)
        decreases Pathless(ViewsOf(events))
      {
        PassFacts(Src(), KnowledgeOf(store, memo), ViewsOf(events));
        var newly, already, unresolved := PassMemo(memo, events);
        passes := passes + 1;
        var current := Resolution(newly, already, unresolved, passes);
        if newly == 0 {
          if passes == 1 {
            return current;
          }
          return best;
        }
        best := current;
      }
    }
  }

  lemma PassStarts(src: Source, know: Knowledge, es: seq<Event>)
    ensures PassUpTo(src, know, es, 0) == PassState(know, [], 0, 0, 0)
  {
  }

  lemma PassNext(src: Source, know: Knowledge, es: seq<Event>, i: nat)
    requires i < |es|
    ensures PassUpTo(src, know, es, i + 1) == PassStep(src, PassUpTo(src, know, es, i), es[i])
  {
  }

  lemma StepCounts(src: Source, s: PassState, ev: Event)
    ensures var kind, next := Resolve(src, ReadFrom(s.know), ev).kind, PassStep(src, s, ev);
      && |next.done| == |s.done| + 1
      && next.newly == s.newly + (if kind.Resolved? then 1 else 0)
      && next.already == s.already + (if kind.AlreadyResolved? then 1 else 0)
      && next.unresolved == s.unresolved + (if kind.NothingToResolve? || kind.Unresolvable? then 1 else 0)
  {
    hide Resolve, Settle, Learn;
  }

  // No event of a pass that only reads profits from another.
  lemma {:induction false} ReadOnlyPass(src: Source, known: Known, es: seq<Event>, n: nat)
    requires n <= |es|
    ensures forall k :: 0 <= k < n ==>
      PassUpTo(src, Apart(known, map[]), es, n).done[k] == Settle(es[k], Resolve(src, known, es[k]))
  {
    hide Resolve, Settle;
    if n != 0 {
      ReadOnlyPass(src, known, es, n - 1);
      ReadOnlyStep(src, known, es, n - 1);
    }
  }

  lemma ReadOnlyStep(src: Source, known: Known, es: seq<Event>, i: nat)
    requires i < |es|
    ensures var s := PassUpTo(src, Apart(known, map[]), es, i);
      && s.know.Apart? && s.know.store == known
      && PassUpTo(src, Apart(known, map[]), es, i + 1) == PassStep(src, s, es[i])
  {
    hide Resolve, Settle;
    if i != 0 {
      ReadOnlyStep(src, known, es, i - 1);
    }
  }
}
