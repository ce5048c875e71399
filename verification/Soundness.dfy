// What is learned is true: against a naming of handles that store, filesystem and
// events agree with, every step keeps the agreement and every path is the naming's.
module Soundness {
  import opened Wrappers
  import opened Bytes
  import opened Wire
  import opened Events
  import opened Paths
  import opened Mounts
  import opened HandleCaches
  import opened Resolving
  import opened Confluence

  type Naming = Key -> Path

  ghost predicate StoreAgrees(known: Known, name: Naming) {
    forall k :: k in known ==> known[k] == name(k)
  }

  ghost predicate SourceAgrees(src: Source, name: Naming) {
    forall fsid: Fsid, handle: Handle :: AskSource(src, fsid, handle).Ok? ==>
      AskSource(src, fsid, handle).value == name((fsid, handle))
  }

  ghost predicate KnowledgeAgrees(know: Knowledge, name: Naming) {
    match know
    case Shared(both) => StoreAgrees(both, name)
    case Apart(store, memo) => StoreAgrees(store, name) && StoreAgrees(memo, name)
  }

  // The event's own handle is the entry its record names.
  predicate Truthful(ev: Event, name: Naming) {
    EntryShape(ev) && OwnKey(ev).Some? ==> name(OwnKey(ev).value) == JoinDir(name(EntryKey(ev)), NameBytes(ev))
  }

  // A path the naming gives the event: that of its entry, of the source of its
  // rename, or of its own handle.
  predicate NamedPath(ev: Event, name: Naming, path: Path) {
    || (EntryShape(ev) && path == JoinDir(name(EntryKey(ev)), NameBytes(ev)))
    || (SourceShape(ev) && path == JoinDir(name(SourceKey(ev)), ev.renameSource.value.name.bytes))
    || (OwnKey(ev).Some? && path == name(OwnKey(ev).value))
  }

  lemma LookupIsNamed(src: Source, known: Known, name: Naming, fsid: Fsid, handle: Handle)
    requires StoreAgrees(known, name) && SourceAgrees(src, name)
    ensures Lookup(src, known, fsid, handle).Ok? ==> Lookup(src, known, fsid, handle).value == name((fsid, handle))
  {
    hide AskSource;
  }

  lemma StepIsSound(src: Source, known: Known, name: Naming, ev: Event)
    requires StoreAgrees(known, name) && SourceAgrees(src, name) && Truthful(ev, name)
    ensures var o := Resolve(src, known, ev);
      && (o.path.Some? ==> NamedPath(ev, name, o.path.value))
      && (o.learned.Some? && o.path.Some? ==> name(o.learned.value) == o.path.value)
  {
    hide AskSource, Lookup, SourceAgrees, StoreAgrees;
    if ev.fsid.Some? {
      var f := ev.fsid.value;
      if ev.dfidNameHandle.Some? {
        LookupIsNamed(src, known, name, f, ev.dfidNameHandle.value.bytes);
      }
      if ev.renameSource.Some? {
        LookupIsNamed(src, known, name, f, ev.renameSource.value.handle.bytes);
      }
      if ev.selfHandle.Some? {
        LookupIsNamed(src, known, name, f, ev.selfHandle.value.bytes);
      }
    }
  }

  lemma LearningAgrees(know: Knowledge, name: Naming, o: Outcome)
    requires KnowledgeAgrees(know, name)
    requires o.learned.Some? && o.path.Some? ==> name(o.learned.value) == o.path.value
    ensures KnowledgeAgrees(Learn(know, o), name)
  {
  }

  lemma ReadAgrees(know: Knowledge, name: Naming)
    requires KnowledgeAgrees(know, name)
    ensures StoreAgrees(ReadFrom(know), name)
  {
  }

  // Every path given so far is the naming's.
  predicate AllNamed(was: seq<Event>, now: seq<Event>, name: Naming) {
    && |now| == |was|
    && forall i :: 0 <= i < |was| ==> GivenIsNamed(was[i], now[i], name)
  }

  predicate GivenIsNamed(was: Event, now: Event, name: Naming) {
    && FillsPath(was, now)
    && (was.path.None? && now.path.Some? ==> NamedPath(was, name, now.path.value))
  }

  lemma StepKeepsNamed(src: Source, know: Knowledge, name: Naming, es0: seq<Event>, es: seq<Event>, i: nat)
    requires KnowledgeAgrees(know, name) && SourceAgrees(src, name)
    requires AllNamed(es0, es, name) && i < |es| && Truthful(es0[i], name)
    ensures KnowledgeAgrees(KnowAfter(src, know, es, i), name)
    ensures AllNamed(es0, EventsAfter(src, know, es, i), name)
  {
    hide Resolve, KnowledgeAgrees, SourceAgrees, Truthful, NamedPath, Learn;
    var ev, es' := es[i], EventsAfter(src, know, es, i);
    assert GivenIsNamed(es0[i], ev, name);
    ResolveCounts(src, ReadFrom(know), ev);
    ReadAgrees(know, name);
    if ev.path.None? {
      StepIsSound(src, ReadFrom(know), name, ev);
    }
    LearningAgrees(know, name, Resolve(src, ReadFrom(know), ev));
    forall j | 0 <= j < |es0|
      ensures GivenIsNamed(es0[j], es'[j], name)
    {
      assert GivenIsNamed(es0[j], es[j], name);
    }
  }

  // Store and memo, one object or two, still agree with the naming after a batch,
  // and every path the batch set is the naming's.
  lemma CacheIsSound(src: Source, know: Knowledge, name: Naming, es: seq<Event>)
    requires KnowledgeAgrees(know, name) && SourceAgrees(src, name)
    requires forall i :: 0 <= i < |es| ==> Truthful(es[i], name)
    ensures var r := Run(src, know, es);
      && KnowledgeAgrees(r.know, name)
      && forall i :: 0 <= i < |es| && es[i].path.None? && r.events[i].path.Some? ==>
           NamedPath(es[i], name, r.events[i].path.value)
  {
    hide RunFrom, KnowledgeAgrees, SourceAgrees, Truthful, NamedPath, KnowAfter, EventsAfter;
    var inv: Invariant := (k: Knowledge, fs: seq<Event>) => KnowledgeAgrees(k, name) && AllNamed(es, fs, name);
    forall k: Knowledge, fs: seq<Event>, i: nat | i < |fs| && inv(k, fs)
      ensures inv(KnowAfter(src, k, fs, i), EventsAfter(src, k, fs, i))
    {
      StepKeepsNamed(src, k, name, es, fs, i);
    }
    assert AllNamed(es, es, name);
    assert inv(know, es);
    RunKeeps(src, know, es, 0, NOTHING, inv);
    var r := Run(src, know, es);
    forall i | 0 <= i < |es| && es[i].path.None? && r.events[i].path.Some?
      ensures NamedPath(es[i], name, r.events[i].path.value)
    {
      assert GivenIsNamed(es[i], r.events[i], name);
    }
  }

  // Whenever the filesystem alone would answer, what is known answers the same, for
  // a handle and for an entry under it.
  lemma CachedAnswersTheSame(src: Source, known: Known, name: Naming, fsid: Fsid, handle: Handle, entry: Name)
    requires StoreAgrees(known, name) && SourceAgrees(src, name)
    ensures Lookup(src, map[], fsid, handle).Ok? ==>
      Lookup(src, known, fsid, handle) == Lookup(src, map[], fsid, handle)
    ensures LookupDir(src, map[], fsid, handle, entry).Ok? ==>
      LookupDir(src, known, fsid, handle, entry) == LookupDir(src, map[], fsid, handle, entry)
  {
    hide AskSource, Refused, JoinDir;
    assert AskSource(src, fsid, handle).Ok? ==> AskSource(src, fsid, handle).value == name((fsid, handle));
  }

  // A resolved entry stays below the directory it was resolved under: the
  // directory's components and the entry's name, or the directory byte for byte, on
  // a hit and from the filesystem alike. A refused name is refused in any case.
  lemma EntryStaysBelow(src: Source, known: Known, fsid: Fsid, handle: Handle, entry: Name)
    ensures Refused(entry) ==> LookupDir(src, known, fsid, handle, entry) == Err(InvalidInput)
    ensures !Refused(entry) ==>
      match Lookup(src, known, fsid, handle)
      case Err(e) => LookupDir(src, known, fsid, handle, entry) == Err(e)
      case Ok(dir) =>
        && LookupDir(src, known, fsid, handle, entry).Ok?
        && var path := LookupDir(src, known, fsid, handle, entry).value;
           if NamesDirItself(entry) then path == dir else Components(path) == Components(dir) + [Normal(entry)]
  {
    hide Lookup, Components, JoinDir;
    if !Refused(entry) && Lookup(src, known, fsid, handle).Ok? {
      JoinAddsOneComponent(Lookup(src, known, fsid, handle).value, entry);
    }
  }

  // ----- Without truth. -----

  function DirOf(src: Source, known: Known, ev: Event): Result<Path, Error>
    requires EntryShape(ev)
  {
    Lookup(src, known, EntryKey(ev).0, EntryKey(ev).1)
  }

  // Of two events that claim one handle for two entries whose directories can be
  // had, the later one's path is what the store ends with, and the earlier keeps its
  // own: they are the same if and only if both entries are the same path. Where the
  // second entry lies under the very handle claimed, its directory is what the first
  // event taught, and they are the same if and only if its name is that of the
  // directory itself. When they differ no naming makes both events truthful.
  lemma LaterClaimOverwrites(src: Source, start: Known, a: Event, b: Event)
    requires EntryShape(a) && EntryShape(b) && OwnKey(a).Some? && OwnKey(a) == OwnKey(b)
    requires DirOf(src, start, a).Ok?
    requires OwnKey(a).value != EntryKey(b) ==> DirOf(src, start, b).Ok?
    ensures var r, own := Run(src, Shared(start), [a, b]), OwnKey(a).value;
      && r.know.Shared? && own in r.know.both && r.events[0].path.Some?
      && var agrees := r.know.both[own] == r.events[0].path.value;
         && (agrees <==>
               if own == EntryKey(b) then NamesDirItself(NameBytes(b))
               else JoinDir(DirOf(src, start, a).value, NameBytes(a)) == JoinDir(DirOf(src, start, b).value, NameBytes(b)))
         && (!agrees ==> forall name: Naming :: StoreAgrees(start, name) && SourceAgrees(src, name) ==>
               !(Truthful(a, name) && Truthful(b, name)))
  {
    hide RunFrom, Refused, JoinDir, AskSource, SourceAgrees, StoreAgrees;
    var o := Resolve(src, start, a);
    var p := Resolve(src, Knows(start, o), b);
    assert o.kind.Resolved? && p.kind.Resolved?;
    RunOfTwo(src, start, a, b);
    ProperNamesAdd(o.path.value, NameBytes(b));
    forall name: Naming | StoreAgrees(start, name) && SourceAgrees(src, name)
      && Truthful(a, name) && Truthful(b, name)
      ensures p.path == o.path
    {
      LookupIsNamed(src, start, name, EntryKey(a).0, EntryKey(a).1);
      LookupIsNamed(src, start, name, EntryKey(b).0, EntryKey(b).1);
    }
  }

  lemma ProperNamesAdd(dir: Path, entry: Name)
    requires !Refused(entry)
    ensures JoinDir(dir, entry) == dir <==> NamesDirItself(entry)
  {
    assert !NamesDirItself(entry) ==> |JoinDir(dir, entry)| > |dir|;
  }
}
