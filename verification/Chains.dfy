// How many passes a batch takes: a chain of parents in reverse order needs one for
// each of its events, which is the most any batch of its size can need.
module Chains {
  import opened Wrappers
  import opened Bytes
  import opened Events
  import opened Paths
  import opened HandleCaches
  import opened Resolving
  import opened Confluence

  // An event that can be resolved by its entry alone and teaches its own handle.
  predicate Link(ev: Event) {
    EntryShape(ev) && OwnKey(ev).Some? && ev.renameSource.None?
  }

  // The first `m` events of the slice are a reversed chain still to be resolved:
  // each is the entry of the one after it, the parent of the last is known, and
  // neither the store nor the filesystem knows any of them. The rest have paths.
  ghost predicate ReversedChain(src: Source, known: Known, es: seq<Event>, m: nat) {
    && m <= |es|
    && (forall i :: 0 <= i < m ==> Link(es[i]) && Unknown(src, known, OwnKey(es[i]).value))
    && (forall i, j :: 0 <= i < j < m ==> OwnKey(es[i]) != OwnKey(es[j]))
    && (forall i :: 0 <= i < m - 1 ==> ChildOf(es, i))
    && (m != 0 ==> EntryKey(es[m - 1]) in known)
    && (forall i :: m <= i < |es| ==> es[i].path.Some?)
  }

  predicate Unknown(src: Source, known: Known, k: Key) {
    k !in known && AskSource(src, k.0, k.1).Err?
  }

  predicate ChildOf(es: seq<Event>, i: nat)
    requires i + 1 < |es|
  {
    EntryShape(es[i]) && Some(EntryKey(es[i])) == OwnKey(es[i + 1])
  }

  lemma WaitingLink(src: Source, known: Known, ev: Event)
    requires Link(ev) && Unknown(src, known, OwnKey(ev).value) && Unknown(src, known, EntryKey(ev))
    ensures Resolve(src, known, ev) == Outcome(Unresolvable, None, None)
  {
    hide AskSource, Refused;
  }

  lemma ReadyLink(src: Source, known: Known, ev: Event)
    requires Link(ev) && EntryKey(ev) in known
    ensures Resolve(src, known, ev) ==
      Outcome(Resolved, Some(JoinDir(known[EntryKey(ev)], NameBytes(ev))), OwnKey(ev))
  {
    hide AskSource, Refused;
  }

  // A pass over the chain resolves nothing before its last event, that one, and
  // nothing after it.
  lemma {:induction false} PassBeforeLast(src: Source, known: Known, es: seq<Event>, m: nat, n: nat)
    requires ReversedChain(src, known, es, m) && n < m
    ensures PassUpTo(src, Shared(known), es, n) == PassState(Shared(known), es[..n], 0, 0, n)
  {
    hide Resolve, Link, Unknown, EntryShape;
    if n != 0 {
      PassBeforeLast(src, known, es, m, n - 1);
      assert ChildOf(es, n - 1) && Unknown(src, known, OwnKey(es[n]).value);
      WaitingLink(src, known, es[n - 1]);
      assert es[..n] == es[..n - 1] + [es[n - 1]];
    }
  }

  function AfterLast(known: Known, ev: Event): Outcome
    requires EntryShape(ev) && EntryKey(ev) in known
  {
    Outcome(Resolved, Some(JoinDir(known[EntryKey(ev)], NameBytes(ev))), OwnKey(ev))
  }

  lemma {:induction false} PassFromLast(src: Source, known: Known, es: seq<Event>, m: nat, n: nat)
    requires ReversedChain(src, known, es, m) && 0 < m <= n <= |es|
    requires EntryShape(es[m - 1])
    ensures var o := AfterLast(known, es[m - 1]);
      PassUpTo(src, Shared(known), es, n) ==
        PassState(Shared(Knows(known, o)), es[m - 1 := Settle(es[m - 1], o)][..n], 1, n - m, m - 1)
  {
    hide Resolve, Unknown, EntryShape;
    var o := AfterLast(known, es[m - 1]);
    var es' := es[m - 1 := Settle(es[m - 1], o)];
    if n == m {
      PassBeforeLast(src, known, es, m, n - 1);
      ReadyLink(src, known, es[m - 1]);
    } else {
      PassFromLast(src, known, es, m, n - 1);
      ResolveCounts(src, Knows(known, o), es[n - 1]);
    }
    assert es'[..n] == es'[..n - 1] + [es'[n - 1]];
  }

  lemma NextChain(src: Source, known: Known, es: seq<Event>, m: nat)
    requires ReversedChain(src, known, es, m) && 0 < m && EntryShape(es[m - 1])
    ensures var o := AfterLast(known, es[m - 1]);
      ReversedChain(src, Knows(known, o), es[m - 1 := Settle(es[m - 1], o)], m - 1)
  {
    hide AskSource, EntryShape;
    var o := AfterLast(known, es[m - 1]);
    var es' := es[m - 1 := Settle(es[m - 1], o)];
    assert Link(es[m - 1]) && o.learned == OwnKey(es[m - 1]);
    forall i | 0 <= i < m - 1 - 1
      ensures ChildOf(es', i)
    {
      assert ChildOf(es, i);
    }
    if m > 1 {
      assert ChildOf(es, m - 2) && Link(es[m - 2]);
    }
  }

  lemma {:induction false} ChainRun(src: Source, known: Known, es: seq<Event>, m: nat, passes: nat, best: Resolution)
    requires ReversedChain(src, known, es, m)
    ensures var r := RunFrom(src, Shared(known), es, passes, best);
      && r.passesMade == passes + m + 1
      && Pathless(r.events) == 0
      && (m != 0 ==> r.resolution == Resolution(1, |es| - 1, 0, passes + m))
      && (m == 0 && passes != 0 ==> r.resolution == best)
    decreases m
  {
    hide PassUpTo, ReversedChain, Resolve, EntryShape, OnlyFillsPaths, Pathless, Settle, Knows, AfterLast;
    PassFacts(src, Shared(known), es);
    var s := Pass(src, Shared(known), es);
    if m == 0 {
      AllSettled(src, known, es);
    } else {
      ChainHas(src, known, es, m);
      PassFromLast(src, known, es, m, |es|);
      NextChain(src, known, es, m);
      var es' := es[m - 1 := Settle(es[m - 1], AfterLast(known, es[m - 1]))];
      assert es'[..|es|] == es';
      ChainRun(src, s.know.both, s.done, m - 1, passes + 1, Resolution(s.newly, s.already, s.unresolved, passes + 1));
    }
  }

  lemma ChainHas(src: Source, known: Known, es: seq<Event>, m: nat)
    requires ReversedChain(src, known, es, m) && 0 < m
    ensures m <= |es| && EntryShape(es[m - 1]) && EntryKey(es[m - 1]) in known
  {
    assert Link(es[m - 1]);
  }

  lemma AllSettled(src: Source, known: Known, es: seq<Event>)
    requires ReversedChain(src, known, es, 0)
    ensures Pathless(es) == 0 && Pass(src, Shared(known), es).newly == 0
  {
    NonePathless(es);
    PassFacts(src, Shared(known), es);
  }

  lemma {:induction false} NonePathless(es: seq<Event>)
    requires forall i :: 0 <= i < |es| ==> es[i].path.Some?
    ensures Pathless(es) == 0
  {
    if |es| != 0 {
      NonePathless(es[..|es| - 1]);
    }
  }

  // A reversed chain of `k` events is resolved completely, in exactly `k` passes
  // that resolve one event each, and one more that finds nothing to do.
  lemma ReversedChainTakesAPassEach(src: Source, known: Known, es: seq<Event>)
    requires |es| != 0 && ReversedChain(src, known, es, |es|)
    ensures var r := Run(src, Shared(known), es);
      && r.passesMade == |es| + 1
      && r.resolution == Resolution(1, |es| - 1, 0, |es|)
      && Pathless(r.events) == 0
  {
    hide ReversedChain;
    ChainRun(src, known, es, |es|, 0, NOTHING);
  }

  // ----- Parents first. -----

  // Every event is the entry of the one before it, and the parent of the first is
  // known.
  ghost predicate ForwardChain(known: Known, es: seq<Event>) {
    && (forall i :: 0 <= i < |es| ==> Link(es[i]))
    && (es != [] ==> EntryKey(es[0]) in known)
    && forall i :: 0 < i < |es| ==> OwnKey(es[i - 1]) == Some(EntryKey(es[i]))
  }

  lemma {:induction false} PassOverForwardChain(src: Source, known: Known, es: seq<Event>, n: nat)
    requires ForwardChain(known, es) && n <= |es|
    ensures var s := PassUpTo(src, Shared(known), es, n);
      && s.know.Shared? && s.newly == n && s.already == 0 && s.unresolved == 0
      && (n < |es| ==> EntryShape(es[n]) && EntryKey(es[n]) in s.know.both)
      && Pathless(s.done) == 0
  {
    hide Resolve, EntryShape, OwnKey, Settle;
    assert n < |es| ==> Link(es[n]);
    if n != 0 {
      PassOverForwardChain(src, known, es, n - 1);
      assert Link(es[n - 1]);
      var s := PassUpTo(src, Shared(known), es, n - 1);
      ReadyLink(src, s.know.both, es[n - 1]);
      PathlessExtends(s.done, Settle(es[n - 1], AfterLast(s.know.both, es[n - 1])));
      Settled(es[n - 1], AfterLast(s.know.both, es[n - 1]));
    }
  }

  lemma Settled(ev: Event, o: Outcome)
    requires o.path.Some?
    ensures Settle(ev, o).path.Some?
  {
  }

  // In this order one pass resolves them all, each profiting from the one before.
  lemma ForwardChainTakesOnePass(src: Source, known: Known, es: seq<Event>)
    requires ForwardChain(known, es) && es != []
    ensures var r := Run(src, Shared(known), es);
      && r.passesMade == 2 && Pathless(r.events) == 0
      && r.resolution == Resolution(|es|, 0, 0, 1)
  {
    hide PassUpTo, ForwardChain;
    var s := Pass(src, Shared(known), es);
    PassOverForwardChain(src, known, es, |es|);
    PassFacts(src, s.know, s.done);
    assert RunFrom(src, s.know, s.done, 1, Resolution(|es|, 0, 0, 1)).resolution == Resolution(|es|, 0, 0, 1);
  }

  // ----- There is such a chain of every length. -----

  function Zeros(n: nat): Handle {
    seq(n, _ => 0)
  }

  // Event `i` is the entry, under handle `i + 1`, that has handle `i`.
  function ChainOf(k: nat): seq<Event> {
    seq(k, i requires 0 <= i < k => Teacher(((0, 0), Zeros(i + 1)), Zeros(i)))
  }

  function RootOf(k: nat): Known {
    map[((0, 0), Zeros(k)) := [SLASH]]
  }

  lemma TeacherLinks(parent: Key, child: Handle)
    ensures var ev := Teacher(parent, child);
      Link(ev) && EntryKey(ev) == parent && OwnKey(ev) == Some((parent.0, child))
  {
  }

  lemma ZerosDiffer(i: nat, j: nat)
    ensures Zeros(i) == Zeros(j) ==> i == j
  {
    assert |Zeros(i)| == i && |Zeros(j)| == j;
  }

  // Event `i` of the slice is the entry under `keys[i + 1]` that has `keys[i]`.
  ghost predicate Linked(es: seq<Event>, keys: seq<Key>, i: nat)
    requires i < |es| && |keys| == |es| + 1
  {
    Link(es[i]) && EntryKey(es[i]) == keys[i + 1] && OwnKey(es[i]) == Some(keys[i])
  }

  lemma KeysMakeAChain(src: Source, known: Known, es: seq<Event>, keys: seq<Key>)
    requires |keys| == |es| + 1 && keys[|es|] in known
    requires forall i :: 0 <= i < |es| ==> Linked(es, keys, i) && Unknown(src, known, keys[i])
    requires forall i, j :: 0 <= i < j < |keys| ==> keys[i] != keys[j]
    ensures ReversedChain(src, known, es, |es|)
  {
    hide Unknown, EntryShape, OwnKey;
    forall i | 0 <= i < |es|
      ensures OwnKey(es[i]) == Some(keys[i])
    {
      assert Linked(es, keys, i);
    }
    forall i | 0 <= i < |es| - 1
      ensures ChildOf(es, i)
    {
      assert Linked(es, keys, i) && Linked(es, keys, i + 1);
    }
    if |es| != 0 {
      assert Linked(es, keys, |es| - 1);
    }
  }

  lemma ChainOfIsReversed(src: Source, k: nat)
    requires !src.fallback
    ensures ReversedChain(src, RootOf(k), ChainOf(k), k)
  {
    hide Zeros, Link, EntryShape, OwnKey, ReversedChain;
    var es := ChainOf(k);
    var keys: seq<Key> := seq(k + 1, i requires 0 <= i <= k => ((0, 0), Zeros(i)));
    forall i, j | 0 <= i < j < |keys|
      ensures keys[i] != keys[j]
    {
      ZerosDiffer(i, j);
    }
    forall i | 0 <= i < k
      ensures Linked(es, keys, i) && Unknown(src, RootOf(k), keys[i])
    {
      TeacherLinks(keys[i + 1], Zeros(i));
      ZerosDiffer(i, k);
    }
    KeysMakeAChain(src, RootOf(k), es, keys);
  }

  // So the bound on the passes is reached by a batch of every size.
  lemma BoundIsReached(src: Source, k: nat)
    requires !src.fallback && k != 0
    ensures |ChainOf(k)| == Pathless(ChainOf(k)) == k
    ensures Run(src, Shared(RootOf(k)), ChainOf(k)).passesMade == Pathless(ChainOf(k)) + 1
  {
    hide RunFrom, ReversedChain;
    ChainOfIsReversed(src, k);
    ReversedChainTakesAPassEach(src, RootOf(k), ChainOf(k));
    PathlessAtMost(ChainOf(k));
    PassesBounded(src, Shared(RootOf(k)), ChainOf(k), 0, NOTHING);
  }
}
