// Which handles a batch records, and not only makes answerable: the events for which
// that depends on the order, and what is recorded when there are none.
module Recording {
  import opened Wrappers
  import opened Events
  import opened HandleCaches
  import opened Resolving
  import opened Confluence

  // Resolved by its entry or by its own handle an event records that handle,
  // resolved by its rename source it does not. For these events which of the routes
  // is taken first depends on the order, and the handle is not known in any case.
  predicate RecordsByChance(src: Source, ev: Event) {
    SourceShape(ev) && OwnKey(ev).Some? &&
    if EntryShape(ev) then
      && EntryKey(ev) != SourceKey(ev) && !Answers(src, EntryKey(ev))
      && OwnKey(ev).value != EntryKey(ev)
      && (OwnKey(ev).value != SourceKey(ev) || Answers(src, OwnKey(ev).value))
    else
      Answers(src, OwnKey(ev).value) && !Answers(src, SourceKey(ev))
  }

  // The event records its own handle when the handles in `s` can be had: through its
  // entry, or because the filesystem answers it and not the rename source.
  predicate Records(src: Source, ev: Event, s: iset<Key>) {
    && ev.path.None? && OwnKey(ev).Some?
    && ((EntryShape(ev) && EntryKey(ev) in s) || RecordsAtOnce(src, ev))
  }

  predicate RecordsAtOnce(src: Source, ev: Event)
    requires OwnKey(ev).Some?
  {
    Answers(src, OwnKey(ev).value) && !(SourceShape(ev) && Answers(src, SourceKey(ev)))
  }

  predicate RecordsKey(src: Source, es: seq<Event>, s: iset<Key>, i: int, k: Key) {
    0 <= i < |es| && Records(src, es[i], s) && OwnKey(es[i]) == Some(k)
  }

  // What holds of an event once it has been given its path: its own handle is
  // recorded, unless it is its own entry, which whoever taught it has recorded.
  ghost predicate WellRecorded(src: Source, was: Event, known: Known) {
    OwnKey(was).Some? ==>
      && (EntryShape(was) ==>
            OwnKey(was).value in known || (OwnKey(was).value == EntryKey(was) && !Answers(src, EntryKey(was))))
      && (RecordsAtOnce(src, was) ==> OwnKey(was).value in known)
  }

  // How far recording has come from `es0`.
  ghost predicate Recorded(src: Source, start: Known, es0: seq<Event>, known: Known, es: seq<Event>) {
    && OnlyFillsPaths(es0, es)
    && (forall k :: k in start ==> k in known)
    && (forall k :: k in known ==> k in start || exists i :: RecordsKey(src, es0, Answerable(src, known), i, k))
    && (forall i :: 0 <= i < |es| && es0[i].path.None? && es[i].path.Some? ==> WellRecorded(src, es0[i], known))
  }

  lemma RecordsMore(src: Source, ev: Event, s: iset<Key>, t: iset<Key>)
    requires s <= t && Records(src, ev, s)
    ensures Records(src, ev, t)
  {
  }

  // A handle an event records now is justified, or known already.
  lemma StepIsJustified(src: Source, known: Known, ev: Event)
    requires ev.path.None?
    ensures var o := Resolve(src, known, ev);
      o.learned.Some? && o.path.Some? ==>
        || o.learned.value in known
        || (OwnKey(ev) == o.learned && Records(src, ev, Answerable(src, known)))
  {
    hide ByEntry, BySource, ByOwnHandle, Lookup, Answerable, Answers, EntryShape, SourceShape;
    RoutesAre(src, known, ev);
    AnswerableIs(src, known);
  }

  lemma StepRecordsWell(src: Source, known: Known, ev: Event)
    requires !RecordsByChance(src, ev) && ev.path.None? && Resolve(src, known, ev).kind.Resolved?
    ensures WellRecorded(src, ev, Knows(known, Resolve(src, known, ev)))
  {
    hide ByEntry, BySource, ByOwnHandle, Lookup, Answerable, Answers, EntryShape, SourceShape;
    RoutesAre(src, known, ev);
    AnswerableIs(src, known);
  }

  lemma WellRecordedGrows(src: Source, ev: Event, known: Known, later: Known)
    requires WellRecorded(src, ev, known) && forall k :: k in known ==> k in later
    ensures WellRecorded(src, ev, later)
  {
  }

  lemma StepRecords(src: Source, start: Known, es0: seq<Event>, known: Known, es: seq<Event>, i: nat)
    requires Recorded(src, start, es0, known, es) && i < |es|
    requires !RecordsByChance(src, es0[i])
    ensures Recorded(src, start, es0, Knows(known, Resolve(src, known, es[i])), EventsAfter(src, Shared(known), es, i))
  {
    hide Resolve, Answerable, Records, RecordsByChance, WellRecorded;
    var o := Resolve(src, known, es[i]);
    var known', es' := Knows(known, o), EventsAfter(src, Shared(known), es, i);
    ResolveCounts(src, known, es[i]);
    KnowsMore(src, known, o);
    StepOnlyFills(src, es0, Shared(known), es, i);
    assert FillsPath(es0[i], es[i]);
    forall k | k in known'
      ensures k in start || exists j :: RecordsKey(src, es0, Answerable(src, known'), j, k)
    {
      if k !in known {
        assert es[i] == es0[i];
        StepIsJustified(src, known, es[i]);
        RecordsMore(src, es0[i], Answerable(src, known), Answerable(src, known'));
        assert RecordsKey(src, es0, Answerable(src, known'), i, k);
      } else if j :| RecordsKey(src, es0, Answerable(src, known), j, k) {
        RecordsMore(src, es0[j], Answerable(src, known), Answerable(src, known'));
        assert RecordsKey(src, es0, Answerable(src, known'), j, k);
      }
    }
    forall j | 0 <= j < |es'| && es0[j].path.None? && es'[j].path.Some?
      ensures WellRecorded(src, es0[j], known')
    {
      if es[j].path.Some? {
        WellRecordedGrows(src, es0[j], known, known');
      } else {
        assert j == i && es[i] == es0[i];
        StepRecordsWell(src, known, es[i]);
      }
    }
  }

  lemma RunRecords(src: Source, start: Known, es: seq<Event>)
    requires forall i :: 0 <= i < |es| ==> !RecordsByChance(src, es[i])
    ensures var r := Run(src, Shared(start), es);
      r.know.Shared? && Recorded(src, start, es, r.know.both, r.events)
  {
    hide Recorded, Resolve, RecordsByChance, KnowAfter, EventsAfter, RunFrom, Knows;
    var inv: Invariant := (k: Knowledge, fs: seq<Event>) =>
      k.Shared? && |fs| == |es| && Recorded(src, start, es, k.both, fs);
    forall k: Knowledge, fs: seq<Event>, i: nat | i < |fs| && inv(k, fs)
      ensures inv(KnowAfter(src, k, fs, i), EventsAfter(src, k, fs, i))
    {
      StepKnows(src, k.both, fs, i);
      StepRecords(src, start, es, k.both, fs, i);
      SameLength(src, k, fs, i);
    }
    NothingRecordedYet(src, start, es);
    RunKeeps(src, Shared(start), es, 0, NOTHING, inv);
  }

  lemma NothingRecordedYet(src: Source, start: Known, es: seq<Event>)
    ensures Recorded(src, start, es, start, es)
  {
  }

  lemma ByChanceOrNotAmbiguous(src: Source, ev: Event)
    requires !RecordsByChance(src, ev)
    ensures !Ambiguous(src, ev)
  {
  }

  // An event that is still without a path records nothing.
  lemma UnresolvedRecordsNothing(src: Source, known: Known, ev: Event)
    requires !CanResolve(ev, Answerable(src, known))
    ensures !Records(src, ev, Answerable(src, known))
  {
    hide Answers, EntryShape, SourceShape, Answerable;
    AnswerableIs(src, known);
  }

  // The handles recorded at the end are those of before, and the own handles of the
  // events that record them when the handles of the least fixed point can be had.
  lemma RecordedHandles(src: Source, start: Known, es: seq<Event>, k: Key)
    requires forall i :: 0 <= i < |es| ==> !RecordsByChance(src, es[i])
    ensures var r := Run(src, Shared(start), es);
      && r.know.Shared?
      && (k in r.know.both <==>
            k in start || exists i :: RecordsKey(src, es, Answerable(src, r.know.both), i, k))
  {
    hide RunFrom, Answerable, CanResolve, Records, RecordsByChance, Ambiguous, Answers;
    var r := Run(src, Shared(start), es);
    RunRecords(src, start, es);
    forall i | 0 <= i < |es|
      ensures !Ambiguous(src, es[i])
    {
      ByChanceOrNotAmbiguous(src, es[i]);
    }
    LeastFixedPoint(src, start, es);
    AnswerableIs(src, r.know.both);
    if i :| RecordsKey(src, es, Answerable(src, r.know.both), i, k) {
      if CanResolve(es[i], Answerable(src, r.know.both)) {
        RecordsHasPathless(src, es[i], Answerable(src, r.know.both));
        assert WellRecorded(src, es[i], r.know.both);
        RecordedAtTheEnd(src, es[i], r.know.both);
      } else {
        UnresolvedRecordsNothing(src, r.know.both, es[i]);
      }
    }
  }

  lemma RecordsHasPathless(src: Source, ev: Event, s: iset<Key>)
    requires Records(src, ev, s)
    ensures ev.path.None? && OwnKey(ev).Some?
  {
  }

  lemma RecordedAtTheEnd(src: Source, ev: Event, known: Known)
    requires WellRecorded(src, ev, known) && Records(src, ev, Answerable(src, known))
    ensures OwnKey(ev).Some? && OwnKey(ev).value in known
  {
    hide Answers, EntryShape, SourceShape, Answerable;
    AnswerableIs(src, known);
  }

  // So they do not depend on the order either.
  lemma RecordingOrderDoesNotMatter(src: Source, start: Known, es: seq<Event>, fs: seq<Event>)
    requires forall i :: 0 <= i < |es| ==> !RecordsByChance(src, es[i])
    requires SameEvents(es, fs)
    ensures ReadFrom(Run(src, Shared(start), es).know).Keys == ReadFrom(Run(src, Shared(start), fs).know).Keys
  {
    hide RunFrom, Answerable, RecordsByChance, Ambiguous, Records;
    forall i | 0 <= i < |es|
      ensures !Ambiguous(src, es[i])
    {
      ByChanceOrNotAmbiguous(src, es[i]);
    }
    forall j | 0 <= j < |fs|
      ensures !RecordsByChance(src, fs[j])
    {
      assert fs[j] in es;
    }
    OrderDoesNotMatter(src, start, es, fs);
    var r, q := Run(src, Shared(start), es), Run(src, Shared(start), fs);
    var s := Answerable(src, r.know.both);
    forall k
      ensures k in r.know.both <==> k in q.know.both
    {
      RecordedHandles(src, start, es, k);
      RecordedHandles(src, start, fs, k);
      if i :| RecordsKey(src, es, s, i, k) {
        assert es[i] in fs;
        var j :| 0 <= j < |fs| && fs[j] == es[i];
        assert RecordsKey(src, fs, s, j, k);
      }
      if j :| RecordsKey(src, fs, s, j, k) {
        assert fs[j] in es;
        var i :| 0 <= i < |es| && es[i] == fs[j];
        assert RecordsKey(src, es, s, i, k);
      }
    }
  }

  // ----- For every other event it does. -----

  ghost predicate RecordingOrderMatters(src: Source, start: Known, ev: Event, other: Event) {
    var r, q := Run(src, Shared(start), [ev, other]), Run(src, Shared(start), [other, ev]);
    ReadFrom(r.know).Keys != ReadFrom(q.know).Keys
  }

  // By the rename source before the entry's directory is taught, by the entry after.
  lemma ChanceByEntry(src: Source, ev: Event) returns (start: Known, other: Event)
    requires RecordsByChance(src, ev) && EntryShape(ev)
    ensures !RecordsByChance(src, other) && RecordingOrderMatters(src, start, ev, other)
  {
    hide RunFrom, AskSource, Lookup, Answers, Resolve, Answerable, EntryShape, SourceShape;
    start := if OwnKey(ev).value == SourceKey(ev) then map[] else map[SourceKey(ev) := []];
    other := Teacher(SourceKey(ev), EntryKey(ev).1);
    AnswerableIs(src, start);
    TeacherTeaches(src, start, SourceKey(ev), EntryKey(ev).1);
    assert EntryKey(ev) == (SourceKey(ev).0, EntryKey(ev).1) by { SameFilesystem(ev); }
    var o, p := Resolve(src, start, ev), Resolve(src, start, other);
    BySourceFirst(src, start, ev);
    RunOfTwo(src, start, ev, other);
    AnswerableIs(src, Knows(start, p));
    ByEntryOnceKnown(src, Knows(start, p), ev);
    RunOfTwo(src, start, other, ev);
    var q := Resolve(src, Knows(start, p), ev);
    assert OwnKey(ev).value !in Knows(Knows(start, o), p);
    assert OwnKey(ev).value in Knows(Knows(start, p), q);
  }

  lemma SameFilesystem(ev: Event)
    requires SourceShape(ev)
    ensures ev.path.None?
    ensures EntryShape(ev) ==> EntryKey(ev).0 == SourceKey(ev).0
    ensures OwnKey(ev).Some? ==> OwnKey(ev).value.0 == SourceKey(ev).0
  {
  }

  // By its own handle before the rename source is taught, by the source after.
  lemma ChanceByOwnHandle(src: Source, ev: Event) returns (start: Known, other: Event)
    requires RecordsByChance(src, ev) && !EntryShape(ev)
    ensures !RecordsByChance(src, other) && RecordingOrderMatters(src, start, ev, other)
  {
    hide RunFrom, AskSource, Lookup, Answers, Resolve, Answerable, EntryShape, SourceShape;
    start := map[];
    other := Teacher(OwnKey(ev).value, SourceKey(ev).1);
    AnswerableIs(src, start);
    TeacherTeaches(src, start, OwnKey(ev).value, SourceKey(ev).1);
    SameFilesystem(ev);
    var o, p := Resolve(src, start, ev), Resolve(src, start, other);
    ByOwnHandleFirst(src, start, ev);
    AnswerableIs(src, Knows(start, o));
    TeacherTeaches(src, Knows(start, o), OwnKey(ev).value, SourceKey(ev).1);
    RunOfTwo(src, start, ev, other);
    AnswerableIs(src, Knows(start, p));
    BySourceFirst(src, Knows(start, p), ev);
    RunOfTwo(src, start, other, ev);
    var p', q := Resolve(src, Knows(start, o), other), Resolve(src, Knows(start, p), ev);
    assert OwnKey(ev).value in Knows(Knows(start, o), p');
    assert OwnKey(ev).value !in Knows(Knows(start, p), q);
  }

  lemma ByOwnHandleFirst(src: Source, known: Known, ev: Event)
    requires ev.path.None? && OwnKey(ev).Some? && OwnKey(ev).value in Answerable(src, known)
    requires SourceShape(ev) ==> SourceKey(ev) !in Answerable(src, known)
    requires !EntryShape(ev)
    ensures Resolve(src, known, ev).kind.Resolved? && Resolve(src, known, ev).learned == OwnKey(ev)
    ensures Resolve(src, known, ev).path.Some?
  {
    hide ByEntry, BySource, ByOwnHandle, Answerable, EntryShape, SourceShape;
    RoutesAre(src, known, ev);
  }

  // The exact condition, as for the handles that can be had.
  lemma RecordingOrderMattersIff(src: Source, ev: Event)
    ensures RecordsByChance(src, ev) <==>
      exists start: Known, other: Event ::
        !RecordsByChance(src, other) && RecordingOrderMatters(src, start, ev, other)
  {
    hide RecordsByChance, RunFrom, EntryShape;
    if RecordsByChance(src, ev) {
      var start: Known, other: Event;
      if EntryShape(ev) {
        start, other := ChanceByEntry(src, ev);
      } else {
        start, other := ChanceByOwnHandle(src, ev);
      }
      assert !RecordsByChance(src, other) && RecordingOrderMatters(src, start, ev, other);
    } else {
      forall start: Known, other: Event | !RecordsByChance(src, other)
        ensures !RecordingOrderMatters(src, start, ev, other)
      {
        RecordingOrderDoesNotMatter(src, start, [ev, other], [other, ev]);
      }
    }
  }
}
