// Resolving events against what is known: one handle, one event, one pass over a
// batch, and passes repeated until one of them resolves nothing.
module Resolving {
  import opened Wrappers
  import opened Bytes
  import opened Wire
  import opened Events
  import opened Paths
  import opened Mounts
  import opened HandleCaches

  type Known = map<Key, Path>

  // What a resolver may ask: the filesystem behind its mounts, or nothing.
  datatype Source = Source(fs: Filesystem, candidates: seq<Candidate>, fallback: bool)

  function AskSource(src: Source, fsid: Fsid, handle: Handle): Result<Path, Error> {
    if src.fallback then Ask(src.fs, Selected(src.candidates, Some(fsid)), handle) else Err(Errno(EXDEV))
  }

  // `resolve_handle`: what is known first, then the filesystem.
  function Lookup(src: Source, known: Known, fsid: Fsid, handle: Handle): Result<Path, Error> {
    if (fsid, handle) in known then Ok(known[(fsid, handle)]) else AskSource(src, fsid, handle)
  }

  // `resolve_dir`: a refused name is refused before anything is looked up.
  function LookupDir(src: Source, known: Known, fsid: Fsid, handle: Handle, name: Name): Result<Path, Error> {
    if Refused(name) then Err(InvalidInput)
    else
      match Lookup(src, known, fsid, handle)
      case Ok(dir) => Ok(JoinDir(dir, name))
      case Err(e) => Err(e)
  }

  datatype EventResolution = Resolved | AlreadyResolved | NothingToResolve | Unresolvable

  // What resolving one event does: the path it gets and the handle learned for it.
  datatype Outcome = Outcome(kind: EventResolution, path: Option<Path>, learned: Option<Key>)

  function ToOption(r: Result<Path, Error>): Option<Path> {
    if r.Ok? then Some(r.value) else None
  }

  // `dfid_name_raw`.
  function NameBytes(ev: Event): Name {
    if ev.dfidNameName.Some? then ev.dfidNameName.value.bytes else []
  }

  // The three routes to a path, in the order they are tried.
  function ByEntry(src: Source, known: Known, ev: Event): Option<Path> {
    if ev.fsid.Some? && ev.dfidNameHandle.Some?
    then ToOption(LookupDir(src, known, ev.fsid.value, ev.dfidNameHandle.value.bytes, NameBytes(ev)))
    else None
  }

  function BySource(src: Source, known: Known, ev: Event): Option<Path> {
    if ev.fsid.Some? && ev.renameSource.Some?
    then ToOption(LookupDir(src, known, ev.fsid.value, ev.renameSource.value.handle.bytes,
                            ev.renameSource.value.name.bytes))
    else None
  }

  function ByOwnHandle(src: Source, known: Known, ev: Event): Option<Path> {
    if ev.fsid.Some? && ev.selfHandle.Some?
    then ToOption(Lookup(src, known, ev.fsid.value, ev.selfHandle.value.bytes))
    else None
  }

  function OwnKey(ev: Event): Option<Key> {
    if ev.fsid.Some? && ev.selfHandle.Some? then Some((ev.fsid.value, ev.selfHandle.value.bytes)) else None
  }

  function Resolve(src: Source, known: Known, ev: Event): Outcome {
    if ev.path.Some? then Outcome(AlreadyResolved, None, None)
    else if ev.fsid.None? then Outcome(NothingToResolve, None, None)
    else if ByEntry(src, known, ev).Some? then Outcome(Resolved, ByEntry(src, known, ev), OwnKey(ev))
    else if BySource(src, known, ev).Some? then Outcome(Resolved, BySource(src, known, ev), None)
    else if ByOwnHandle(src, known, ev).Some? then Outcome(Resolved, ByOwnHandle(src, known, ev), OwnKey(ev))
    else Outcome(Unresolvable, None, None)
  }

  function Settle(ev: Event, o: Outcome): Event {
    if o.path.Some? then ev.(path := o.path) else ev
  }

  // The store a resolver reads and the memo it writes: one object, or two.
  datatype Knowledge = Shared(both: Known) | Apart(store: Known, memo: Known)

  function ReadFrom(k: Knowledge): Known {
    match k
    case Shared(both) => both
    case Apart(store, _) => store
  }

  function Knows(known: Known, o: Outcome): Known {
    if o.learned.Some? && o.path.Some? then known[o.learned.value := o.path.value] else known
  }

  function Learn(k: Knowledge, o: Outcome): Knowledge {
    match k
    case Shared(both) => Shared(Knows(both, o))
    case Apart(store, memo) => Apart(store, Knows(memo, o))
  }

  // ----- One pass. -----

  // After the first events of a slice: what is known, those events, and the counts.
  datatype PassState = PassState(know: Knowledge, done: seq<Event>, newly: nat, already: nat, unresolved: nat)

  function PassUpTo(src: Source, know: Knowledge, es: seq<Event>, n: nat): (s: PassState)
    requires n <= |es|
    ensures |s.done| == n
  {
    if n == 0 then PassState(know, [], 0, 0, 0)
    else PassStep(src, PassUpTo(src, know, es, n - 1), es[n - 1])
  }

  function PassStep(src: Source, s: PassState, ev: Event): PassState {
    var o := Resolve(src, ReadFrom(s.know), ev);
    PassState(Learn(s.know, o),
              s.done + [Settle(ev, o)],
              s.newly + (if o.kind.Resolved? then 1 else 0),
              s.already + (if o.kind.AlreadyResolved? then 1 else 0),
              s.unresolved + (if o.kind.NothingToResolve? || o.kind.Unresolvable? then 1 else 0))
  }

  function Pass(src: Source, know: Knowledge, es: seq<Event>): (s: PassState)
    ensures |s.done| == |es|
  {
    PassUpTo(src, know, es, |es|)
  }

  function Pathless(es: seq<Event>): nat {
    if |es| == 0 then 0
    else Pathless(es[..|es| - 1]) + (if es[|es| - 1].path.None? then 1 else 0)
  }

  lemma PathlessExtends(es: seq<Event>, ev: Event)
    ensures Pathless(es + [ev]) == Pathless(es) + (if ev.path.None? then 1 else 0)
  {
    assert (es + [ev])[..|es|] == es;
  }

  lemma {:induction false} PathlessAtMost(es: seq<Event>)
    ensures Pathless(es) <= |es|
  {
    if |es| != 0 {
      PathlessAtMost(es[..|es| - 1]);
    }
  }

  // The counts account for the events `was`, now `done`: those resolved are the
  // path-less ones fewer, those that had a path keep being counted, and the rest has
  // none.
  predicate Counted(s: PassState, was: seq<Event>) {
    && s.newly + Pathless(s.done) == Pathless(was)
    && s.already == |was| - Pathless(was)
    && s.unresolved == Pathless(s.done)
  }

  lemma StepConserves(src: Source, s: PassState, ev: Event, was: seq<Event>)
    requires Counted(s, was)
    ensures Counted(PassStep(src, s, ev), was + [ev])
  {
    hide Resolve, Learn, Pathless;
    var o := Resolve(src, ReadFrom(s.know), ev);
    ResolveCounts(src, ReadFrom(s.know), ev);
    PathlessExtends(was, ev);
    PathlessExtends(s.done, Settle(ev, o));
  }

  lemma {:induction false} PassConserves(src: Source, know: Knowledge, es: seq<Event>, n: nat)
    requires n <= |es|
    ensures var s := PassUpTo(src, know, es, n);
      && s.newly + Pathless(s.done) == Pathless(es[..n])
      && s.already == n - Pathless(es[..n])
      && s.unresolved == Pathless(s.done)
  {
    hide Resolve, PassStep;
    if n != 0 {
      PassConserves(src, know, es, n - 1);
      StepConserves(src, PassUpTo(src, know, es, n - 1), es[n - 1], es[..n - 1]);
      assert es[..n] == es[..n - 1] + [es[n - 1]];
    }
  }

  lemma ResolveCounts(src: Source, known: Known, ev: Event)
    ensures var o := Resolve(src, known, ev);
      && (o.kind.AlreadyResolved? <==> ev.path.Some?)
      && (o.kind.Resolved? <==> o.path.Some?)
      && (ev.path.Some? ==> o.path.None?)
      && (o.learned.Some? ==> o.path.Some? && o.learned == OwnKey(ev))
  {
  }

  // Between passes nothing but paths changes, and only on events that had none.
  ghost predicate OnlyFillsPaths(was: seq<Event>, now: seq<Event>) {
    && |now| == |was|
    && forall i :: 0 <= i < |was| ==> FillsPath(was[i], now[i])
  }

  predicate FillsPath(was: Event, now: Event) {
    now == was.(path := now.path) && (was.path.Some? ==> now.path == was.path)
  }

  lemma {:induction false} PassOnlyFills(src: Source, know: Knowledge, es: seq<Event>, n: nat)
    requires n <= |es|
    ensures OnlyFillsPaths(es[..n], PassUpTo(src, know, es, n).done)
  {
    hide Resolve;
    if n != 0 {
      PassOnlyFills(src, know, es, n - 1);
      ResolveCounts(src, ReadFrom(PassUpTo(src, know, es, n - 1).know), es[n - 1]);
    }
  }

  // A pass that resolves nothing changes nothing.
  lemma {:induction false} IdlePass(src: Source, know: Knowledge, es: seq<Event>, n: nat)
    requires n <= |es| && PassUpTo(src, know, es, n).newly == 0
    ensures PassUpTo(src, know, es, n).know == know && PassUpTo(src, know, es, n).done == es[..n]
  {
    hide Resolve;
    if n != 0 {
      var s := PassUpTo(src, know, es, n - 1);
      IdlePass(src, know, es, n - 1);
      ResolveCounts(src, ReadFrom(s.know), es[n - 1]);
      assert es[..n] == es[..n - 1] + [es[n - 1]];
    }
  }

  // ----- Passes until one resolves nothing. -----

  datatype Resolution = Resolution(resolved: nat, alreadyResolved: nat, unresolved: nat, passes: nat)

  datatype RunResult = RunResult(know: Knowledge, events: seq<Event>, resolution: Resolution, passesMade: nat)

  function RunFrom(src: Source, know: Knowledge, es: seq<Event>, passes: nat, best: Resolution): (r: RunResult)
    ensures |r.events| == |es|
    decreases Pathless(es)
  {
    var s := Pass(src, know, es);
    var this' := Resolution(s.newly, s.already, s.unresolved, passes + 1);
    if s.newly == 0 then
      RunResult(s.know, s.done, if passes == 0 then this' else best, passes + 1)
    else
      assert Pathless(s.done) < Pathless(es) by {
        PassConserves(src, know, es, |es|);
        assert es[..|es|] == es;
      }
      RunFrom(src, s.know, s.done, passes + 1, this')
  }

  const NOTHING: Resolution := Resolution(0, 0, 0, 0)

  // `resolve_events_memo`.
  function Run(src: Source, know: Knowledge, es: seq<Event>): RunResult {
    RunFrom(src, know, es, 0, NOTHING)
  }

  // Every pass but the last resolves something, so there is at most one more than
  // there are events without a path.
  lemma {:induction false} PassesBounded(src: Source, know: Knowledge, es: seq<Event>, passes: nat, best: Resolution)
    ensures var r := RunFrom(src, know, es, passes, best);
      r.passesMade + Pathless(r.events) <= passes + Pathless(es) + 1
    decreases Pathless(es)
  {
    hide Pass;
    var s := Pass(src, know, es);
    PassFacts(src, know, es);
    if s.newly != 0 {
      PassesBounded(src, s.know, s.done, passes + 1, Resolution(s.newly, s.already, s.unresolved, passes + 1));
    }
  }

  lemma PassFacts(src: Source, know: Knowledge, es: seq<Event>)
    ensures var s := Pass(src, know, es);
      && s.newly + Pathless(s.done) == Pathless(es)
      && s.already == |es| - Pathless(es)
      && s.unresolved == Pathless(s.done)
      && OnlyFillsPaths(es, s.done)
      && (s.newly == 0 ==> s.know == know && s.done == es)
  {
    assert es[..|es|] == es;
    PassConserves(src, know, es, |es|);
    PassOnlyFills(src, know, es, |es|);
    if Pass(src, know, es).newly == 0 {
      IdlePass(src, know, es, |es|);
    }
  }

  // What the counts of a call say about the batch it leaves.
  predicate Accounts(events: seq<Event>, resolution: Resolution) {
    && resolution.resolved + resolution.alreadyResolved + Pathless(events) == |events|
    && resolution.unresolved == Pathless(events)
  }

  lemma {:induction false} RunSettles(src: Source, know: Knowledge, es: seq<Event>, passes: nat, best: Resolution)
    requires passes != 0 ==> Accounts(es, best)
    ensures var r := RunFrom(src, know, es, passes, best);
      && Accounts(r.events, r.resolution)
      && OnlyFillsPaths(es, r.events)
      && Pass(src, r.know, r.events).newly == 0
    decreases Pathless(es)
  {
    hide Pass;
    var s := Pass(src, know, es);
    PassFacts(src, know, es);
    PathlessAtMost(es);
    if s.newly != 0 {
      var best' := Resolution(s.newly, s.already, s.unresolved, passes + 1);
      RunSettles(src, s.know, s.done, passes + 1, best');
      FillsTwice(es, s.done, RunFrom(src, s.know, s.done, passes + 1, best').events);
    }
  }

  lemma FillsTwice(a: seq<Event>, b: seq<Event>, c: seq<Event>)
    requires OnlyFillsPaths(a, b) && OnlyFillsPaths(b, c)
    ensures OnlyFillsPaths(a, c)
  {
    forall i | 0 <= i < |a|
      ensures FillsPath(a[i], c[i])
    {
      assert FillsPath(a[i], b[i]) && FillsPath(b[i], c[i]);
    }
  }

  // The loop ends at a true fixed point. `resolved + already_resolved` is the number
  // of events with a path and `unresolved` the rest; no path that was there changed;
  // and a second call resolves nothing and leaves events and knowledge as they are.
  lemma FixedPoint(src: Source, know: Knowledge, es: seq<Event>)
    ensures var r := Run(src, know, es);
      && Accounts(r.events, r.resolution)
      && OnlyFillsPaths(es, r.events)
      && r.passesMade <= Pathless(es) + 1
      && var again := Run(src, r.know, r.events);
         && again.know == r.know && again.events == r.events
         && again.resolution == Resolution(0, |es| - Pathless(r.events), Pathless(r.events), 1)
  {
    hide Pass;
    RunSettles(src, know, es, 0, NOTHING);
    PassesBounded(src, know, es, 0, NOTHING);
    var r := Run(src, know, es);
    PassFacts(src, r.know, r.events);
  }

  // ----- A run is so many passes. -----

  // What is known and the events after `n` passes.
  function Iterated(src: Source, know: Knowledge, es: seq<Event>, n: nat): (Knowledge, seq<Event>)
    decreases n, 0
  {
    if n == 0 then (know, es)
    else
      var s := PassNumber(src, know, es, n - 1);
      (s.know, s.done)
  }

  // The pass after `n` others.
  function PassNumber(src: Source, know: Knowledge, es: seq<Event>, n: nat): PassState
    decreases n, 1
  {
    var before := Iterated(src, know, es, n);
    Pass(src, before.0, before.1)
  }

  // The call made `n` passes that resolved something and then one that did not. Its
  // counts are those of the last of the `n`, and it reports `n` passes; when there
  // was none they are those of the idle pass, and it reports that one.
  ghost predicate RanFor(src: Source, know: Knowledge, es: seq<Event>, n: nat,
                         know': Knowledge, es': seq<Event>, resolution: Resolution)
  {
    && (forall m :: 0 <= m < n ==> PassNumber(src, know, es, m).newly != 0)
    && PassNumber(src, know, es, n).newly == 0
    && (know', es') == Iterated(src, know, es, n)
    && var counted := PassNumber(src, know, es, if n == 0 then 0 else n - 1);
       resolution == Resolution(counted.newly, counted.already, counted.unresolved, if n == 0 then 1 else n)
  }

  lemma {:induction false} RunFromIteration(src: Source, know: Knowledge, es: seq<Event>, m: nat, best: Resolution)
    returns (n: nat)
    requires forall j :: 0 <= j < m ==> PassNumber(src, know, es, j).newly != 0
    requires m != 0 ==>
      var last := PassNumber(src, know, es, m - 1);
      best == Resolution(last.newly, last.already, last.unresolved, m)
    ensures var now := Iterated(src, know, es, m);
      var r := RunFrom(src, now.0, now.1, m, best);
      RanFor(src, know, es, n, r.know, r.events, r.resolution) && r.passesMade == n + 1
    decreases Pathless(Iterated(src, know, es, m).1)
  {
    hide Pass;
    var now := Iterated(src, know, es, m);
    var s := PassNumber(src, know, es, m);
    PassFacts(src, now.0, now.1);
    if s.newly == 0 {
      n := m;
    } else {
      n := RunFromIteration(src, know, es, m + 1, Resolution(s.newly, s.already, s.unresolved, m + 1));
    }
  }

  lemma RunIsIteration(src: Source, know: Knowledge, es: seq<Event>)
    ensures var r := Run(src, know, es);
      exists n: nat :: RanFor(src, know, es, n, r.know, r.events, r.resolution) && r.passesMade == n + 1
  {
    hide RunFrom, RanFor;
    var n := RunFromIteration(src, know, es, 0, NOTHING);
    var now, r := Iterated(src, know, es, 0), Run(src, know, es);
    assert now.0 == know && now.1 == es;
    assert RanFor(src, know, es, n, r.know, r.events, r.resolution) && r.passesMade == n + 1;
  }

  // ----- What every step keeps, a run keeps. -----

  // A property of what is known and of the slice as it stands.
  type Invariant = (Knowledge, seq<Event>) -> bool

  // The slice in the middle of a pass.
  function Current(s: PassState, es: seq<Event>): seq<Event>
    requires |s.done| <= |es|
  {
    s.done + es[|s.done|..]
  }

  function KnowAfter(src: Source, know: Knowledge, es: seq<Event>, i: nat): Knowledge
    requires i < |es|
  {
    Learn(know, Resolve(src, ReadFrom(know), es[i]))
  }

  function EventsAfter(src: Source, know: Knowledge, es: seq<Event>, i: nat): seq<Event>
    requires i < |es|
  {
    es[i := Settle(es[i], Resolve(src, ReadFrom(know), es[i]))]
  }

  // Resolving any one event of the slice keeps the property.
  ghost predicate Keeps(src: Source, inv: Invariant) {
    forall know: Knowledge, es: seq<Event>, i: nat :: i < |es| && inv(know, es) ==>
      inv(KnowAfter(src, know, es, i), EventsAfter(src, know, es, i))
  }

  lemma {:induction false} PassKeeps(src: Source, know: Knowledge, es: seq<Event>, n: nat, inv: Invariant)
    requires n <= |es| && inv(know, es) && Keeps(src, inv)
    ensures var s := PassUpTo(src, know, es, n); inv(s.know, Current(s, es))
  {
    hide Resolve, Learn, Settle;
    if n == 0 {
      assert Current(PassUpTo(src, know, es, 0), es) == es;
    } else {
      PassKeeps(src, know, es, n - 1, inv);
      var s := PassUpTo(src, know, es, n - 1);
      var now := Current(s, es);
      assert now[n - 1] == es[n - 1];
      assert Current(PassUpTo(src, know, es, n), es) == EventsAfter(src, s.know, now, n - 1);
      assert PassUpTo(src, know, es, n).know == KnowAfter(src, s.know, now, n - 1);
    }
  }

  lemma {:induction false} RunKeeps(src: Source, know: Knowledge, es: seq<Event>, passes: nat, best: Resolution,
                                    inv: Invariant)
    requires inv(know, es) && Keeps(src, inv)
    ensures var r := RunFrom(src, know, es, passes, best); inv(r.know, r.events)
    decreases Pathless(es)
  {
    hide PassUpTo, Keeps;
    var s := Pass(src, know, es);
    PassFacts(src, know, es);
    PassKeeps(src, know, es, |es|, inv);
    assert Current(s, es) == s.done;
    if s.newly != 0 {
      RunKeeps(src, s.know, s.done, passes + 1, Resolution(s.newly, s.already, s.unresolved, passes + 1), inv);
    }
  }

  lemma IdleMeansStuck(src: Source, know: Knowledge, es: seq<Event>, i: nat)
    requires Pass(src, know, es).newly == 0 && i < |es|
    ensures !Resolve(src, ReadFrom(know), es[i]).kind.Resolved?
  {
    IdleUpTo(src, know, es, |es|, i);
  }

  lemma {:induction false} IdleUpTo(src: Source, know: Knowledge, es: seq<Event>, n: nat, i: nat)
    requires n <= |es| && PassUpTo(src, know, es, n).newly == 0 && i < n
    ensures !Resolve(src, ReadFrom(know), es[i]).kind.Resolved?
  {
    hide Resolve;
    IdlePass(src, know, es, n - 1);
    if i < n - 1 {
      IdleUpTo(src, know, es, n - 1, i);
    }
  }
}
