// Which of its paths an event gets: the same one from a cache as without it, and
// the same one in every order, or not.
module Steadiness {
  import opened Wrappers
  import opened Bytes
  import opened Events
  import opened Paths
  import opened HandleCaches
  import opened Resolving
  import opened Confluence
  import opened Soundness

  // The two names a truthful event may have: that of its entry, which is also that
  // of its own handle, and that of the source of its rename.
  function TheName(ev: Event, name: Naming): Path
    requires EntryShape(ev) || OwnKey(ev).Some?
  {
    if EntryShape(ev) then JoinDir(name(EntryKey(ev)), NameBytes(ev)) else name(OwnKey(ev).value)
  }

  function SourceName(ev: Event, name: Naming): Path
    requires SourceShape(ev)
  {
    JoinDir(name(SourceKey(ev)), ev.renameSource.value.name.bytes)
  }

  // The event has both names.
  predicate TwoNames(ev: Event) {
    SourceShape(ev) && (EntryShape(ev) || OwnKey(ev).Some?)
  }

  // The rename source is the route taken: the first one that can be answered.
  ghost predicate TakesSource(src: Source, known: Known, ev: Event) {
    && SourceShape(ev) && SourceKey(ev) in Answerable(src, known)
    && !(EntryShape(ev) && EntryKey(ev) in Answerable(src, known))
  }

  lemma PathIsName(src: Source, known: Known, name: Naming, ev: Event)
    requires StoreAgrees(known, name) && SourceAgrees(src, name) && Truthful(ev, name)
    requires Resolve(src, known, ev).kind.Resolved?
    ensures TakesSource(src, known, ev) ==> Resolve(src, known, ev).path == Some(SourceName(ev, name))
    ensures !TakesSource(src, known, ev) ==>
      (EntryShape(ev) || OwnKey(ev).Some?) && Resolve(src, known, ev).path == Some(TheName(ev, name))
  {
    hide AskSource, Lookup, SourceAgrees, StoreAgrees, Answerable, Refused;
    ResolveCounts(src, known, ev);
    RoutesAre(src, known, ev);
    if ev.dfidNameHandle.Some? {
      LookupIsNamed(src, known, name, ev.fsid.value, ev.dfidNameHandle.value.bytes);
    }
    if ev.renameSource.Some? {
      LookupIsNamed(src, known, name, ev.fsid.value, ev.renameSource.value.handle.bytes);
    }
    if ev.selfHandle.Some? {
      LookupIsNamed(src, known, name, ev.fsid.value, ev.selfHandle.value.bytes);
    }
  }

  // An event the filesystem alone would give a path gets one from what is known, and
  // it is the same one if and only if both take the rename source, or neither does,
  // or both names are the same.
  lemma CachedEventIsTheSame(src: Source, known: Known, name: Naming, ev: Event)
    requires StoreAgrees(known, name) && SourceAgrees(src, name) && Truthful(ev, name)
    requires Resolve(src, map[], ev).kind.Resolved?
    ensures Resolve(src, known, ev).kind.Resolved?
    ensures Resolve(src, known, ev).path == Resolve(src, map[], ev).path <==>
      || TakesSource(src, known, ev) == TakesSource(src, map[], ev)
      || (TwoNames(ev) && SourceName(ev, name) == TheName(ev, name))
    ensures !TwoNames(ev) ==> Resolve(src, known, ev).path == Resolve(src, map[], ev).path
  {
    hide AskSource, EntryShape, SourceShape, Truthful, Resolve, TakesSource, Answerable, SourceName, TheName;
    ResolveCounts(src, map[], ev);
    ResolveCounts(src, known, ev);
    RoutesAre(src, map[], ev);
    RoutesAre(src, known, ev);
    KnownAnswersMore(src, known);
    PathIsName(src, map[], name, ev);
    PathIsName(src, known, name, ev);
    SourceIsShaped(src, map[], ev);
    SourceIsShaped(src, known, ev);
  }

  lemma SourceIsShaped(src: Source, known: Known, ev: Event)
    ensures TakesSource(src, known, ev) ==> SourceShape(ev)
  {
  }

  lemma KnownAnswersMore(src: Source, known: Known)
    ensures Answerable(src, map[]) <= Answerable(src, known)
    ensures forall ev :: CanResolve(ev, Answerable(src, map[])) ==> CanResolve(ev, Answerable(src, known))
  {
    hide AskSource, EntryShape, SourceShape;
  }

  // The events that get the same path whatever is known when they get it. With two
  // different names an event is steady if the first of the two routes it may take
  // can always be had, or can be had whenever the other can.
  predicate Steady(src: Source, name: Naming, ev: Event) {
    TwoNames(ev) ==>
      || SourceName(ev, name) == TheName(ev, name)
      || (if EntryShape(ev)
          then Answers(src, EntryKey(ev)) || EntryKey(ev) == SourceKey(ev)
          else Answers(src, SourceKey(ev)) || OwnKey(ev).value == SourceKey(ev))
  }

  // The path a steady event gets.
  function SteadyName(src: Source, name: Naming, ev: Event): Path
    requires SourceShape(ev) || EntryShape(ev) || OwnKey(ev).Some?
  {
    if !SourceShape(ev) || EntryShape(ev) then TheName(ev, name) else SourceName(ev, name)
  }

  lemma SteadyEventHasOnePath(src: Source, known: Known, name: Naming, ev: Event)
    requires StoreAgrees(known, name) && SourceAgrees(src, name) && Truthful(ev, name) && Steady(src, name, ev)
    requires Resolve(src, known, ev).kind.Resolved?
    ensures SourceShape(ev) || EntryShape(ev) || OwnKey(ev).Some?
    ensures Resolve(src, known, ev).path == Some(SteadyName(src, name, ev))
  {
    hide AskSource, Answers, EntryShape, SourceShape, Truthful, Resolve, Answerable, SourceName, TheName;
    ResolveCounts(src, known, ev);
    RoutesAre(src, known, ev);
    AnswerableIs(src, known);
    PathIsName(src, known, name, ev);
  }

  // Exactly these: an event that is not steady gets different paths from two stores
  // that both agree with the naming.
  lemma SteadyIff(src: Source, name: Naming, ev: Event)
    requires SourceAgrees(src, name) && Truthful(ev, name)
    ensures Steady(src, name, ev) <==>
      forall known: Known, other: Known ::
        && StoreAgrees(known, name) && StoreAgrees(other, name)
        && Resolve(src, known, ev).kind.Resolved? && Resolve(src, other, ev).kind.Resolved?
        ==> Resolve(src, known, ev).path == Resolve(src, other, ev).path
  {
    hide Steady, Resolve, SourceAgrees, Truthful, SteadyName;
    if Steady(src, name, ev) {
      forall known: Known | StoreAgrees(known, name) && Resolve(src, known, ev).kind.Resolved?
        ensures SourceShape(ev) || EntryShape(ev) || OwnKey(ev).Some?
        ensures Resolve(src, known, ev).path == Some(SteadyName(src, name, ev))
      {
        SteadyEventHasOnePath(src, known, name, ev);
      }
    } else {
      var bySource, byName := UnsteadyEventHasTwo(src, name, ev);
      assert Resolve(src, bySource, ev).path != Resolve(src, byName, ev).path;
    }
  }

  lemma UnsteadyEventHasTwo(src: Source, name: Naming, ev: Event) returns (bySource: Known, byName: Known)
    requires SourceAgrees(src, name) && Truthful(ev, name) && !Steady(src, name, ev)
    ensures StoreAgrees(bySource, name) && StoreAgrees(byName, name)
    ensures Resolve(src, bySource, ev).kind.Resolved? && Resolve(src, byName, ev).kind.Resolved?
    ensures Resolve(src, bySource, ev).path != Resolve(src, byName, ev).path
  {
    hide AskSource, Answers, EntryShape, SourceShape, Truthful, Resolve, Answerable, SourceName, TheName;
    var late := if EntryShape(ev) then EntryKey(ev) else OwnKey(ev).value;
    bySource, byName := map[SourceKey(ev) := name(SourceKey(ev))], map[late := name(late)];
    TwoNamesIsPathless(ev);
    AnswerableIs(src, bySource);
    AnswerableIs(src, byName);
    RoutesAre(src, bySource, ev);
    RoutesAre(src, byName, ev);
    PathIsName(src, bySource, name, ev);
    PathIsName(src, byName, name, ev);
  }

  lemma TwoNamesIsPathless(ev: Event)
    requires TwoNames(ev)
    ensures ev.path.None?
  {
  }

  // Whatever path the event was given is the one it had, or its steady one.
  predicate GivenSteadily(src: Source, name: Naming, was: Event, now: Event) {
    && FillsPath(was, now)
    && (was.path.None? && now.path.Some? ==>
          && (SourceShape(was) || EntryShape(was) || OwnKey(was).Some?)
          && now.path == Some(SteadyName(src, name, was)))
  }

  lemma SteadilyGivenIsOne(src: Source, name: Naming, was: Event, p: Event, q: Event)
    requires GivenSteadily(src, name, was, p) && GivenSteadily(src, name, was, q)
    ensures p.path.Some? && q.path.Some? ==> p.path == q.path
  {
    hide SteadyName;
  }

  lemma PathsAreSteady(src: Source, start: Known, name: Naming, es: seq<Event>, i: nat)
    requires StoreAgrees(start, name) && SourceAgrees(src, name) && i < |es|
    requires forall k :: 0 <= k < |es| ==> Truthful(es[k], name)
    requires Steady(src, name, es[i])
    ensures GivenSteadily(src, name, es[i], Run(src, Shared(start), es).events[i])
  {
    hide RunFrom, KnowledgeAgrees, SourceAgrees, Truthful, NamedPath, KnowAfter, EventsAfter, Steady, GivenSteadily;
    var inv: Invariant := (k: Knowledge, fs: seq<Event>) =>
      KnowledgeAgrees(k, name) && AllNamed(es, fs, name) && GivenSteadily(src, name, es[i], fs[i]);
    forall k: Knowledge, fs: seq<Event>, j: nat | j < |fs| && inv(k, fs)
      ensures inv(KnowAfter(src, k, fs, j), EventsAfter(src, k, fs, j))
    {
      StepKeepsNamed(src, k, name, es, fs, j);
      StepGivesSteadily(src, k, name, es[i], fs, i, j);
    }
    assert AllNamed(es, es, name);
    StartsSteadily(src, name, es[i]);
    StartAgrees(start, name);
    assert inv(Shared(start), es);
    RunKeeps(src, Shared(start), es, 0, NOTHING, inv);
  }

  lemma StartAgrees(start: Known, name: Naming)
    requires StoreAgrees(start, name)
    ensures KnowledgeAgrees(Shared(start), name)
  {
  }

  lemma StartsSteadily(src: Source, name: Naming, ev: Event)
    ensures GivenSteadily(src, name, ev, ev)
  {
  }

  lemma StepGivesSteadily(src: Source, know: Knowledge, name: Naming, was: Event, es: seq<Event>, i: nat, j: nat)
    requires KnowledgeAgrees(know, name) && SourceAgrees(src, name)
    requires Truthful(was, name) && Steady(src, name, was)
    requires i < |es| && j < |es| && GivenSteadily(src, name, was, es[i])
    ensures GivenSteadily(src, name, was, EventsAfter(src, know, es, j)[i])
  {
    hide Resolve, Steady, SteadyName, Truthful, SourceAgrees, StoreAgrees, KnowledgeAgrees;
    ReadAgrees(know, name);
    ResolveCounts(src, ReadFrom(know), es[j]);
    if i == j && es[i].path.None? && Resolve(src, ReadFrom(know), es[i]).kind.Resolved? {
      assert es[i] == was;
      SteadyEventHasOnePath(src, ReadFrom(know), name, was);
    }
  }

  // In batches of the same events, in whatever order, a steady event never gets two
  // different paths; and when no event is ambiguous it gets one in both or in neither.
  lemma PathsDoNotDependOnOrder(src: Source, start: Known, name: Naming, es: seq<Event>, fs: seq<Event>, i: nat, j: nat)
    requires StoreAgrees(start, name) && SourceAgrees(src, name)
    requires forall k :: 0 <= k < |es| ==> Truthful(es[k], name)
    requires SameEvents(es, fs) && i < |es| && j < |fs| && es[i] == fs[j]
    requires Steady(src, name, es[i])
    ensures var p, q := Run(src, Shared(start), es).events[i].path, Run(src, Shared(start), fs).events[j].path;
      && (p.Some? && q.Some? ==> p == q)
      && ((forall k :: 0 <= k < |es| ==> !Ambiguous(src, es[k])) ==> p == q)
  {
    hide RunFrom, Truthful, Steady, Ambiguous, Answerable, StoreAgrees, SourceAgrees, SteadyName, GivenSteadily;
    forall k | 0 <= k < |fs|
      ensures Truthful(fs[k], name)
    {
      assert fs[k] in es;
    }
    if forall k :: 0 <= k < |es| ==> !Ambiguous(src, es[k]) {
      OrderDoesNotMatter(src, start, es, fs);
    }
    PathsAreSteady(src, start, name, es, i);
    PathsAreSteady(src, start, name, fs, j);
    SteadilyGivenIsOne(src, name, es[i], Run(src, Shared(start), es).events[i], Run(src, Shared(start), fs).events[j]);
  }

  // ----- What it takes for the order to decide. -----

  // `other` teaches, through its entry, a handle that changes the route `ev` takes:
  // the directory of its entry; or that of its rename source, when it could be
  // resolved by its own handle before.
  predicate ChangesRoute(src: Source, ev: Event, other: Event) {
    && EntryShape(other) && OwnKey(other).Some? && OwnKey(other).value != EntryKey(other)
    && ((EntryShape(ev) && OwnKey(other).value == EntryKey(ev))
        || (SourceShape(ev) && OwnKey(ev).Some? && OwnKey(other).value == SourceKey(ev)
            && !Answers(src, SourceKey(ev)) && OwnKey(ev).value != SourceKey(ev)
            && (EntryShape(ev) ==> EntryKey(ev) != OwnKey(ev).value && EntryKey(ev) != EntryKey(other))))
  }

  // Before and after `other` the event gets two different paths.
  ghost predicate PathsDiffer(src: Source, start: Known, ev: Event, other: Event) {
    var p, q := Run(src, Shared(start), [ev, other]).events[0].path, Run(src, Shared(start), [other, ev]).events[1].path;
    p.Some? && q.Some? && p != q
  }

  // The exact condition, for every truthful event and every truthful event beside it.
  lemma PathOrderMattersIff(src: Source, name: Naming, ev: Event, other: Event)
    requires SourceAgrees(src, name) && Truthful(ev, name) && Truthful(other, name)
    ensures !Steady(src, name, ev) && ChangesRoute(src, ev, other) <==>
      exists start: Known :: StoreAgrees(start, name) && PathsDiffer(src, start, ev, other)
  {
    hide Steady, ChangesRoute, RunFrom, SourceAgrees, StoreAgrees, Truthful;
    if !Steady(src, name, ev) && ChangesRoute(src, ev, other) {
      var start := OrderDecidesPath(src, name, ev, other);
      assert StoreAgrees(start, name) && PathsDiffer(src, start, ev, other);
    }
    forall start: Known | StoreAgrees(start, name) && PathsDiffer(src, start, ev, other)
      ensures !Steady(src, name, ev) && ChangesRoute(src, ev, other)
    {
      if Steady(src, name, ev) {
        var both := [ev, other];
        assert both[0] == ev && both[1] == other;
        PathsDoNotDependOnOrder(src, start, name, both, [other, ev], 0, 1);
      }
      DifferentPathsNeedAChange(src, start, name, ev, other);
    }
  }

  lemma OrderDecidesPath(src: Source, name: Naming, ev: Event, other: Event) returns (start: Known)
    requires SourceAgrees(src, name) && Truthful(ev, name) && Truthful(other, name)
    requires !Steady(src, name, ev) && ChangesRoute(src, ev, other)
    ensures StoreAgrees(start, name) && PathsDiffer(src, start, ev, other)
  {
    hide RunFrom, AskSource, Lookup, Answers, EntryShape, SourceShape, Truthful, Resolve, Answerable, SourceName, TheName, Knows;
    var byEntry := EntryShape(ev) && OwnKey(other).value == EntryKey(ev);
    var early := if byEntry then SourceKey(ev) else OwnKey(ev).value;
    var parent := EntryKey(other);
    start := map[early := name(early), parent := name(parent)];
    TwoNamesIsPathless(ev);
    AnswerableIs(src, start);
    RoutesAre(src, start, ev);
    PathIsName(src, start, name, ev);
    var o := Resolve(src, start, ev);
    ByEntryOnceKnown(src, start, other);
    var p := Resolve(src, start, other);
    ResolveCounts(src, start, ev);
    KnowsMore(src, start, o);
    ByEntryOnceKnown(src, Knows(start, o), other);
    RunOfTwo(src, start, ev, other);
    KnowsMore(src, start, p);
    StepAgrees(src, start, name, other);
    RoutesAre(src, Knows(start, p), ev);
    PathIsName(src, Knows(start, p), name, ev);
    RunOfTwo(src, start, other, ev);
  }

  lemma StepAgrees(src: Source, known: Known, name: Naming, ev: Event)
    requires StoreAgrees(known, name) && SourceAgrees(src, name) && Truthful(ev, name)
    ensures StoreAgrees(Knows(known, Resolve(src, known, ev)), name)
  {
    hide Resolve, Truthful, SourceAgrees, NamedPath;
    StepIsSound(src, known, name, ev);
  }

  // What is known when event `i` of two is resolved: what was known at the start, and
  // what the other one taught if it was resolved before.
  ghost predicate OneOfTwo(src: Source, start: Known, es: seq<Event>, i: nat, know: Knowledge, now: seq<Event>)
    requires |es| == 2 && i < 2
  {
    var later := Knows(start, Resolve(src, start, es[1 - i]));
    && know.Shared? && OnlyFillsPaths(es, now)
    && (now[i].path.None? ==> know.both == if now[1 - i].path.None? then start else later)
    && (es[i].path.None? && now[i].path.Some? ==>
          now[i].path == Resolve(src, start, es[i]).path || now[i].path == Resolve(src, later, es[i]).path)
  }

  lemma StepIsOneOfTwo(src: Source, start: Known, es: seq<Event>, i: nat, know: Knowledge, now: seq<Event>, j: nat)
    requires |es| == 2 && i < 2 && j < 2 && OneOfTwo(src, start, es, i, know, now)
    ensures OneOfTwo(src, start, es, i, KnowAfter(src, know, now, j), EventsAfter(src, know, now, j))
  {
    hide Resolve;
    StepKnows(src, know.both, now, j);
    StepOnlyFills(src, es, know, now, j);
    ResolveCounts(src, know.both, now[j]);
    assert FillsPath(es[0], now[0]) && FillsPath(es[1], now[1]);
  }

  lemma PathIsOneOfTwo(src: Source, start: Known, es: seq<Event>, i: nat)
    requires |es| == 2 && i < 2
    ensures var r := Run(src, Shared(start), es); OneOfTwo(src, start, es, i, r.know, r.events)
  {
    hide OneOfTwo, Resolve, KnowAfter, EventsAfter, RunFrom;
    var inv: Invariant := (k: Knowledge, fs: seq<Event>) => |fs| == 2 && OneOfTwo(src, start, es, i, k, fs);
    forall k: Knowledge, fs: seq<Event>, j: nat | j < |fs| && inv(k, fs)
      ensures inv(KnowAfter(src, k, fs, j), EventsAfter(src, k, fs, j))
    {
      StepIsOneOfTwo(src, start, es, i, k, fs, j);
      SameLength(src, k, fs, j);
    }
    StartIsOneOfTwo(src, start, es, i);
    RunKeeps(src, Shared(start), es, 0, NOTHING, inv);
  }

  lemma StartIsOneOfTwo(src: Source, start: Known, es: seq<Event>, i: nat)
    requires |es| == 2 && i < 2
    ensures OneOfTwo(src, start, es, i, Shared(start), es)
  {
    hide Resolve;
    ResolveCounts(src, start, es[1 - i]);
  }

  lemma DifferentPathsNeedAChange(src: Source, start: Known, name: Naming, ev: Event, other: Event)
    requires StoreAgrees(start, name) && SourceAgrees(src, name) && Truthful(ev, name) && Truthful(other, name)
    requires PathsDiffer(src, start, ev, other)
    ensures ChangesRoute(src, ev, other)
  {
    hide RunFrom, Resolve, Truthful, StoreAgrees, SourceAgrees, ChangesRoute;
    PathIsOneOfTwo(src, start, [ev, other], 0);
    PathIsOneOfTwo(src, start, [other, ev], 1);
    RunSettles(src, Shared(start), [ev, other], 0, NOTHING);
    RunSettles(src, Shared(start), [other, ev], 0, NOTHING);
    var later := Knows(start, Resolve(src, start, other));
    var p, q := Run(src, Shared(start), [ev, other]).events[0], Run(src, Shared(start), [other, ev]).events[1];
    assert FillsPath([ev, other][0], p) && FillsPath([other, ev][1], q);
    assert Resolve(src, start, ev).path != Resolve(src, later, ev).path;
    ResolveCounts(src, start, ev);
    ResolveCounts(src, later, ev);
    StepAgrees(src, start, name, other);
    RouteChanges(src, start, name, ev, other);
  }

  lemma RouteChanges(src: Source, start: Known, name: Naming, ev: Event, other: Event)
    requires StoreAgrees(start, name) && SourceAgrees(src, name) && Truthful(ev, name)
    requires var later := Knows(start, Resolve(src, start, other));
      && StoreAgrees(later, name)
      && Resolve(src, start, ev).kind.Resolved? && Resolve(src, later, ev).kind.Resolved?
      && Resolve(src, start, ev).path != Resolve(src, later, ev).path
    ensures ChangesRoute(src, ev, other)
  {
    hide Resolve, Truthful, StoreAgrees, SourceAgrees, Answers, Answerable, EntryShape, SourceShape, SourceName, TheName;
    var later := Knows(start, Resolve(src, start, other));
    PathIsName(src, start, name, ev);
    PathIsName(src, later, name, ev);
    KnowsMore(src, start, Resolve(src, start, other));
    AnswerableIs(src, start);
    ResolveCounts(src, start, ev);
    RoutesAre(src, start, ev);
    LearnsByEntry(src, start, other);
  }

  // Only through its entry does an event teach what could not be had before.
  lemma LearnsByEntry(src: Source, known: Known, ev: Event)
    ensures var o := Resolve(src, known, ev);
      o.learned.Some? && o.path.Some? && o.learned.value !in Answerable(src, known) ==>
        EntryShape(ev) && EntryKey(ev) in Answerable(src, known) && OwnKey(ev) == o.learned
  {
    hide ByEntry, BySource, ByOwnHandle, Answerable;
    if ev.path.None? {
      RoutesAre(src, known, ev);
    }
  }
}
