// A batch resolved into the store it reads reaches the least fixed point of the
// resolution rule, which the order of its events does not change.
module Confluence {
  import opened Wrappers
  import opened Bytes
  import opened Wire
  import opened Events
  import opened Paths
  import opened HandleCaches
  import opened Resolving

  // The filesystem itself has a path for the handle.
  predicate Answers(src: Source, k: Key) {
    AskSource(src, k.0, k.1).Ok?
  }

  // The handles a path can be had for: those known and those the filesystem answers.
  ghost function Answerable(src: Source, known: Known): iset<Key> {
    iset k: Key | Lookup(src, known, k.0, k.1).Ok?
  }

  lemma AnswerableIs(src: Source, known: Known)
    ensures forall k :: k in Answerable(src, known) <==> k in known || Answers(src, k)
  {
    hide AskSource;
  }

  predicate EntryShape(ev: Event) {
    ev.path.None? && ev.fsid.Some? && ev.dfidNameHandle.Some? && !Refused(NameBytes(ev))
  }

  function EntryKey(ev: Event): Key
    requires EntryShape(ev)
  {
    (ev.fsid.value, ev.dfidNameHandle.value.bytes)
  }

  predicate SourceShape(ev: Event) {
    ev.path.None? && ev.fsid.Some? && ev.renameSource.Some? && !Refused(ev.renameSource.value.name.bytes)
  }

  function SourceKey(ev: Event): Key
    requires SourceShape(ev)
  {
    (ev.fsid.value, ev.renameSource.value.handle.bytes)
  }

  // The events whose teaching depends on when they are resolved: resolved by their
  // entry they teach their own handle, by their rename source they do not. That
  // matters when the three handles differ and neither the entry's directory nor the
  // own handle can be had from the filesystem at any time.
  predicate Ambiguous(src: Source, ev: Event) {
    && EntryShape(ev) && SourceShape(ev) && OwnKey(ev).Some?
    && EntryKey(ev) != SourceKey(ev) && OwnKey(ev).value != EntryKey(ev) && OwnKey(ev).value != SourceKey(ev)
    && !Answers(src, EntryKey(ev)) && !Answers(src, OwnKey(ev).value)
  }

  predicate CanResolve(ev: Event, s: iset<Key>) {
    || (EntryShape(ev) && EntryKey(ev) in s)
    || (SourceShape(ev) && SourceKey(ev) in s)
    || (ev.path.None? && OwnKey(ev).Some? && OwnKey(ev).value in s)
  }

  // The rule: a handle that is answerable makes the entries under it answerable by
  // their own handles.
  predicate ClosedUnder(ev: Event, s: iset<Key>) {
    EntryShape(ev) && OwnKey(ev).Some? && EntryKey(ev) in s ==> OwnKey(ev).value in s
  }

  predicate Closed(es: seq<Event>, s: iset<Key>) {
    forall i :: 0 <= i < |es| ==> ClosedUnder(es[i], s)
  }

  ghost predicate LeastClosed(start: iset<Key>, es: seq<Event>, s: iset<Key>) {
    && start <= s && Closed(es, s)
    && forall t: iset<Key> :: start <= t && Closed(es, t) ==> s <= t
  }

  lemma LeastIsUnique(start: iset<Key>, es: seq<Event>, s: iset<Key>, t: iset<Key>)
    requires LeastClosed(start, es, s) && LeastClosed(start, es, t)
    ensures s == t
  {
    assert s <= t && t <= s;
  }

  // ----- One event. -----

  lemma RoutesAre(src: Source, known: Known, ev: Event)
    requires ev.path.None?
    ensures ByEntry(src, known, ev).Some? <==> EntryShape(ev) && EntryKey(ev) in Answerable(src, known)
    ensures BySource(src, known, ev).Some? <==> SourceShape(ev) && SourceKey(ev) in Answerable(src, known)
    ensures ByOwnHandle(src, known, ev).Some? <==> OwnKey(ev).Some? && OwnKey(ev).value in Answerable(src, known)
    ensures Resolve(src, known, ev).kind.Resolved? <==> CanResolve(ev, Answerable(src, known))
  {
    hide AskSource, Refused, JoinDir;
  }

  lemma KnowsMore(src: Source, known: Known, o: Outcome)
    ensures Answerable(src, known) <= Answerable(src, Knows(known, o))
    ensures o.learned.Some? && o.path.Some? ==>
      Answerable(src, Knows(known, o)) == Answerable(src, known) + iset{o.learned.value}
  {
    hide AskSource;
  }

  // One step learns only what every closed set has.
  lemma StepStaysBelow(src: Source, known: Known, ev: Event, t: iset<Key>)
    requires Answerable(src, known) <= t && ClosedUnder(ev, t)
    ensures Answerable(src, Knows(known, Resolve(src, known, ev))) <= t
  {
    hide ByEntry, BySource, ByOwnHandle, Lookup, Answerable;
    var o := Resolve(src, known, ev);
    KnowsMore(src, known, o);
    if ev.path.None? {
      RoutesAre(src, known, ev);
    }
  }

  // What holds of an event once it has been given its path.
  predicate WellResolved(was: Event, s: iset<Key>) {
    && CanResolve(was, s)
    && (EntryShape(was) && OwnKey(was).Some? ==> OwnKey(was).value in s || OwnKey(was).value == EntryKey(was))
  }

  lemma StepResolvesWell(src: Source, known: Known, ev: Event)
    requires !Ambiguous(src, ev) && ev.path.None? && Resolve(src, known, ev).kind.Resolved?
    ensures WellResolved(ev, Answerable(src, Knows(known, Resolve(src, known, ev))))
  {
    hide ByEntry, BySource, ByOwnHandle, Lookup, Answerable, Answers;
    RoutesAre(src, known, ev);
    AnswerableIs(src, known);
    KnowsMore(src, known, Resolve(src, known, ev));
  }

  // ----- A run. -----

  // How far resolution has come from `es0`, at known `known` and events `es`.
  ghost predicate OnTheWay(src: Source, start: Known, es0: seq<Event>, known: Known, es: seq<Event>) {
    && OnlyFillsPaths(es0, es)
    && Answerable(src, start) <= Answerable(src, known)
    && forall i :: 0 <= i < |es| && es0[i].path.None? && es[i].path.Some? ==>
         WellResolved(es0[i], Answerable(src, known))
  }

  // Resolving one event of a slice only fills its path.
  lemma StepOnlyFills(src: Source, es0: seq<Event>, know: Knowledge, es: seq<Event>, i: nat)
    requires OnlyFillsPaths(es0, es) && i < |es|
    ensures OnlyFillsPaths(es0, EventsAfter(src, know, es, i))
  {
    hide Resolve;
    ResolveCounts(src, ReadFrom(know), es[i]);
    var es' := EventsAfter(src, know, es, i);
    forall j | 0 <= j < |es'|
      ensures FillsPath(es0[j], es'[j])
    {
      assert FillsPath(es0[j], es[j]);
    }
  }

  lemma StepOnTheWay(src: Source, start: Known, es0: seq<Event>, known: Known, es: seq<Event>, i: nat)
    requires OnTheWay(src, start, es0, known, es) && i < |es|
    requires !Ambiguous(src, es0[i])
    ensures OnTheWay(src, start, es0, Knows(known, Resolve(src, known, es[i])), EventsAfter(src, Shared(known), es, i))
  {
    hide Resolve, Answerable, WellResolved, Ambiguous, Knows;
    var o := Resolve(src, known, es[i]);
    var es' := EventsAfter(src, Shared(known), es, i);
    ResolveCounts(src, known, es[i]);
    KnowsMore(src, known, o);
    StepOnlyFills(src, es0, Shared(known), es, i);
    assert FillsPath(es0[i], es[i]);
    forall j | 0 <= j < |es'| && es0[j].path.None? && es'[j].path.Some?
      ensures WellResolved(es0[j], Answerable(src, Knows(known, o)))
    {
      if es[j].path.Some? {
        WellResolvedGrows(es0[j], Answerable(src, known), Answerable(src, Knows(known, o)));
      } else {
        assert j == i && es[i] == es0[i];
        StepResolvesWell(src, known, es[i]);
      }
    }
  }

  lemma WellResolvedGrows(ev: Event, s: iset<Key>, t: iset<Key>)
    requires WellResolved(ev, s) && s <= t
    ensures WellResolved(ev, t)
  {
  }

  lemma StepKnows(src: Source, known: Known, es: seq<Event>, i: nat)
    requires i < |es|
    ensures KnowAfter(src, Shared(known), es, i) == Shared(Knows(known, Resolve(src, known, es[i])))
  {
    hide Resolve;
  }

  lemma RunOnTheWay(src: Source, start: Known, es: seq<Event>)
    requires forall i :: 0 <= i < |es| ==> !Ambiguous(src, es[i])
    ensures var r := Run(src, Shared(start), es);
      r.know.Shared? && OnTheWay(src, start, es, r.know.both, r.events)
  {
    hide OnTheWay, Resolve, Ambiguous, KnowAfter, EventsAfter, RunFrom, Knows;
    var inv: Invariant := (k: Knowledge, fs: seq<Event>) =>
      k.Shared? && |fs| == |es| && OnTheWay(src, start, es, k.both, fs);
    forall k: Knowledge, fs: seq<Event>, i: nat | i < |fs| && inv(k, fs)
      ensures inv(KnowAfter(src, k, fs, i), EventsAfter(src, k, fs, i))
    {
      StepKnows(src, k.both, fs, i);
      StepOnTheWay(src, start, es, k.both, fs, i);
      SameLength(src, k, fs, i);
    }
    NothingYet(src, start, es);
    RunKeeps(src, Shared(start), es, 0, NOTHING, inv);
  }

  lemma SameLength(src: Source, know: Knowledge, es: seq<Event>, i: nat)
    requires i < |es|
    ensures |EventsAfter(src, know, es, i)| == |es|
  {
  }

  lemma NothingYet(src: Source, start: Known, es: seq<Event>)
    ensures OnTheWay(src, start, es, start, es)
  {
  }

  lemma RunStaysBelow(src: Source, start: Known, es: seq<Event>, t: iset<Key>)
    requires Answerable(src, start) <= t && Closed(es, t)
    ensures var r := Run(src, Shared(start), es);
      r.know.Shared? && Answerable(src, r.know.both) <= t
  {
    hide Resolve, Answerable, KnowAfter, EventsAfter, RunFrom, Knows;
    var inv: Invariant := (k: Knowledge, fs: seq<Event>) =>
      k.Shared? && OnlyFillsPaths(es, fs) && Answerable(src, k.both) <= t;
    forall k: Knowledge, fs: seq<Event>, i: nat | i < |fs| && inv(k, fs)
      ensures inv(KnowAfter(src, k, fs, i), EventsAfter(src, k, fs, i))
    {
      StepKnows(src, k.both, fs, i);
      StepOnlyFills(src, es, k, fs, i);
      assert FillsPath(es[i], fs[i]) && ClosedUnder(es[i], t);
      StepStaysBelow(src, k.both, fs[i], t);
    }
    assert OnlyFillsPaths(es, es);
    assert inv(Shared(start), es);
    RunKeeps(src, Shared(start), es, 0, NOTHING, inv);
  }

  // What a run leaves is closed under the rule, and every event that could be
  // resolved from it is.
  lemma EndIsClosed(src: Source, start: Known, es0: seq<Event>, known: Known, es: seq<Event>)
    requires OnTheWay(src, start, es0, known, es)
    requires Pass(src, Shared(known), es).newly == 0
    ensures Closed(es0, Answerable(src, known))
    ensures forall i :: 0 <= i < |es| ==>
      (es[i].path.Some? <==> es0[i].path.Some? || CanResolve(es0[i], Answerable(src, known)))
  {
    hide PassUpTo, Answerable, EntryShape, SourceShape, Resolve;
    forall i | 0 <= i < |es|
      ensures ClosedUnder(es0[i], Answerable(src, known))
      ensures es[i].path.Some? <==> es0[i].path.Some? || CanResolve(es0[i], Answerable(src, known))
    {
      assert FillsPath(es0[i], es[i]);
      EventAtEnd(src, known, es0[i], es[i], es, i);
    }
  }

  lemma EventAtEnd(src: Source, known: Known, was: Event, now: Event, es: seq<Event>, i: nat)
    requires i < |es| && es[i] == now && FillsPath(was, now)
    requires was.path.None? && now.path.Some? ==> WellResolved(was, Answerable(src, known))
    requires Pass(src, Shared(known), es).newly == 0
    ensures ClosedUnder(was, Answerable(src, known))
    ensures now.path.Some? <==> was.path.Some? || CanResolve(was, Answerable(src, known))
  {
    hide PassUpTo, Answerable, Resolve;
    if now.path.None? {
      assert now == was;
      IdleMeansStuck(src, Shared(known), es, i);
      RoutesAre(src, known, was);
    }
  }

  // The handles a path can be had for after the call are the least set that has
  // those of before and is closed under the rule; the events with a path are those
  // that had one and those resolvable from that set.
  lemma LeastFixedPoint(src: Source, start: Known, es: seq<Event>)
    requires forall i :: 0 <= i < |es| ==> !Ambiguous(src, es[i])
    ensures var r := Run(src, Shared(start), es);
      && r.know.Shared?
      && LeastClosed(Answerable(src, start), es, Answerable(src, r.know.both))
      && forall i :: 0 <= i < |es| ==>
           (r.events[i].path.Some? <==> es[i].path.Some? || CanResolve(es[i], Answerable(src, r.know.both)))
  {
    hide RunFrom, Answerable, Closed, Ambiguous, CanResolve;
    var r := Run(src, Shared(start), es);
    RunOnTheWay(src, start, es);
    RunSettles(src, Shared(start), es, 0, NOTHING);
    EndIsClosed(src, start, es, r.know.both, r.events);
    forall t: iset<Key> | Answerable(src, start) <= t && Closed(es, t)
      ensures Answerable(src, r.know.both) <= t
    {
      RunStaysBelow(src, start, es, t);
    }
  }

  ghost predicate SameEvents(es: seq<Event>, fs: seq<Event>) {
    forall ev :: ev in es <==> ev in fs
  }

  // Two batches of the same events, in whatever order and however often each comes,
  // end with the same handles answerable and the same events resolved.
  lemma OrderDoesNotMatter(src: Source, start: Known, es: seq<Event>, fs: seq<Event>)
    requires forall i :: 0 <= i < |es| ==> !Ambiguous(src, es[i])
    requires SameEvents(es, fs)
    ensures var r, q := Run(src, Shared(start), es), Run(src, Shared(start), fs);
      && r.know.Shared? && q.know.Shared?
      && Answerable(src, r.know.both) == Answerable(src, q.know.both)
      && forall i, j :: 0 <= i < |es| && 0 <= j < |fs| && es[i] == fs[j] ==>
           (r.events[i].path.Some? <==> q.events[j].path.Some?)
  {
    hide RunFrom, Answerable, Ambiguous, CanResolve, ClosedUnder;
    forall j | 0 <= j < |fs|
      ensures !Ambiguous(src, fs[j])
    {
      assert fs[j] in es;
    }
    LeastFixedPoint(src, start, es);
    LeastFixedPoint(src, start, fs);
    var r, q := Run(src, Shared(start), es), Run(src, Shared(start), fs);
    SameClosure(es, fs);
    assert LeastClosed(Answerable(src, start), es, Answerable(src, q.know.both));
    LeastIsUnique(Answerable(src, start), es, Answerable(src, r.know.both), Answerable(src, q.know.both));
  }

  lemma SameClosure(es: seq<Event>, fs: seq<Event>)
    requires SameEvents(es, fs)
    ensures forall s: iset<Key> :: Closed(es, s) <==> Closed(fs, s)
  {
    forall s: iset<Key>
      ensures Closed(es, s) <==> Closed(fs, s)
    {
      if Closed(es, s) {
        forall j | 0 <= j < |fs|
          ensures ClosedUnder(fs[j], s)
        {
          assert fs[j] in es;
          var i :| 0 <= i < |es| && es[i] == fs[j];
        }
      }
      if Closed(fs, s) {
        forall i | 0 <= i < |es|
          ensures ClosedUnder(es[i], s)
        {
          assert es[i] in fs;
          var j :| 0 <= j < |fs| && fs[j] == es[i];
        }
      }
    }
  }

  // ----- For every other event the order does matter. -----

  lemma PassOfTwo(src: Source, know: Knowledge, a: Event, b: Event)
    ensures Pass(src, know, [a, b]) == PassStep(src, PassStep(src, PassState(know, [], 0, 0, 0), a), b)
  {
    hide Resolve, PassStep;
    assert PassUpTo(src, know, [a, b], 1) == PassStep(src, PassUpTo(src, know, [a, b], 0), a);
  }

  // Two events that one pass resolves.
  lemma RunOfTwo(src: Source, start: Known, a: Event, b: Event)
    requires var o := Resolve(src, start, a);
      o.kind.Resolved? && Resolve(src, Knows(start, o), b).kind.Resolved?
    ensures var o := Resolve(src, start, a);
      var p := Resolve(src, Knows(start, o), b);
      var r := Run(src, Shared(start), [a, b]);
      r.know == Shared(Knows(Knows(start, o), p)) && r.events == [Settle(a, o), Settle(b, p)]
  {
    hide Resolve, Pass;
    var o := Resolve(src, start, a);
    var p := Resolve(src, Knows(start, o), b);
    var s := Pass(src, Shared(start), [a, b]);
    PassOfTwo(src, Shared(start), a, b);
    ResolveCounts(src, start, a);
    ResolveCounts(src, Knows(start, o), b);
    PassFacts(src, Shared(start), [a, b]);
    PassFacts(src, s.know, s.done);
    assert s.done == [Settle(a, o), Settle(b, p)];
    PathlessExtends([], Settle(a, o));
    PathlessExtends([Settle(a, o)], Settle(b, p));
    assert [] + [Settle(a, o)] == [Settle(a, o)] && [Settle(a, o)] + [Settle(b, p)] == s.done;
    assert s.know == Shared(Knows(Knows(start, o), p)) && s.newly == 2;
    var best := Resolution(s.newly, s.already, s.unresolved, 1);
    assert RunFrom(src, s.know, s.done, 1, best).know == s.know;
    assert RunFrom(src, s.know, s.done, 1, best).events == s.done;
    assert Run(src, Shared(start), [a, b]) == RunFrom(src, s.know, s.done, 1, best);
  }

  // Resolved beside `other` in one order or the other, different handles can be had.
  ghost predicate OrderMatters(src: Source, start: Known, ev: Event, other: Event) {
    var r, q := Run(src, Shared(start), [ev, other]), Run(src, Shared(start), [other, ev]);
    Answerable(src, ReadFrom(r.know)) != Answerable(src, ReadFrom(q.know))
  }

  // An event without rename source and name, the entry of its directory itself,
  // which teaches `child` once `parent` can be had.
  function Teacher(parent: Key, child: Handle): Event {
    BLANK.(fsid := Some(parent.0), dfidNameHandle := Some(Owned(parent.1)), selfHandle := Some(Owned(child)))
  }

  lemma TeacherTeaches(src: Source, known: Known, parent: Key, child: Handle)
    requires parent in Answerable(src, known)
    ensures var other := Teacher(parent, child);
      && EntryShape(other) && !SourceShape(other) && EntryKey(other) == parent
      && NameBytes(other) == []
      && OwnKey(other) == Some((parent.0, child))
      && Resolve(src, known, other).kind.Resolved?
      && Resolve(src, known, other).learned == Some((parent.0, child))
      && Resolve(src, known, other).path == Some(Lookup(src, known, parent.0, parent.1).value)
  {
    hide AskSource;
  }

  lemma AmbiguityShows(src: Source, ev: Event) returns (start: Known, other: Event)
    requires Ambiguous(src, ev)
    ensures !Ambiguous(src, other) && OrderMatters(src, start, ev, other)
  {
    hide RunFrom, AskSource, Refused, Lookup, Answers, Resolve, Answerable;
    start := map[SourceKey(ev) := [SLASH]];
    other := Teacher(SourceKey(ev), EntryKey(ev).1);
    AnswerableIs(src, start);
    TeacherTeaches(src, start, SourceKey(ev), EntryKey(ev).1);
    BySourceFirst(src, start, ev);
    var o, p := Resolve(src, start, ev), Resolve(src, start, other);
    RunOfTwo(src, start, ev, other);
    AnswerableIs(src, Knows(start, p));
    ByEntryOnceKnown(src, Knows(start, p), ev);
    RunOfTwo(src, start, other, ev);
    var q := Resolve(src, Knows(start, p), ev);
    AnswerableIs(src, Knows(Knows(start, o), p));
    AnswerableIs(src, Knows(Knows(start, p), q));
    assert OwnKey(ev).value !in Answerable(src, Knows(Knows(start, o), p));
    assert OwnKey(ev).value in Answerable(src, Knows(Knows(start, p), q));
  }

  lemma BySourceFirst(src: Source, known: Known, ev: Event)
    requires SourceShape(ev) && SourceKey(ev) in Answerable(src, known)
    requires EntryShape(ev) ==> EntryKey(ev) !in Answerable(src, known)
    ensures Resolve(src, known, ev).kind.Resolved? && Resolve(src, known, ev).learned == None
    ensures Resolve(src, known, ev).path == BySource(src, known, ev)
  {
    hide ByEntry, BySource, ByOwnHandle, Answerable;
    RoutesAre(src, known, ev);
  }

  lemma ByEntryOnceKnown(src: Source, known: Known, ev: Event)
    requires EntryShape(ev) && EntryKey(ev) in Answerable(src, known)
    ensures Resolve(src, known, ev).kind.Resolved? && Resolve(src, known, ev).learned == OwnKey(ev)
    ensures Resolve(src, known, ev).path == ByEntry(src, known, ev) && Resolve(src, known, ev).path.Some?
  {
    hide ByEntry, BySource, ByOwnHandle, Answerable;
    RoutesAre(src, known, ev);
  }

  // The exact condition: there are a store and one unambiguous event beside which
  // the order matters to an event if and only if the event is ambiguous.
  lemma OrderMattersIff(src: Source, ev: Event)
    ensures Ambiguous(src, ev) <==>
      exists start: Known, other: Event :: !Ambiguous(src, other) && OrderMatters(src, start, ev, other)
  {
    hide Ambiguous, RunFrom, Answerable;
    if Ambiguous(src, ev) {
      var start, other := AmbiguityShows(src, ev);
      assert !Ambiguous(src, other) && OrderMatters(src, start, ev, other);
    } else {
      forall start: Known, other: Event | !Ambiguous(src, other)
        ensures !OrderMatters(src, start, ev, other)
      {
        OrderDoesNotMatter(src, start, [ev, other], [other, ev]);
      }
    }
  }
}
