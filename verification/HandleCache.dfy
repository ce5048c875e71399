// The store a resolver learns into: a map of maps that behaves as one map keyed by
// filesystem and handle together.
module HandleCaches {
  import opened Wrappers
  import opened Bytes
  import opened Wire

  type Key = (Fsid, Handle)
  type Levels = map<Fsid, map<Handle, Path>>

  function Flat(m: Levels): (flat: map<Key, Path>)
    ensures forall k :: Get(flat, k) == Find(m, k)
  {
    map f, h | f in m && h in m[f] :: (f, h) := m[f][h]
  }

  function Get<K, V>(m: map<K, V>, k: K): Option<V> {
    if k in m then Some(m[k]) else None
  }

  // The lookup level by level.
  function Find(m: Levels, k: Key): Option<Path> {
    if k.0 in m then Get(m[k.0], k.1) else None
  }

  lemma SameMap<K(!new), V>(a: map<K, V>, b: map<K, V>)
    requires forall k :: Get(a, k) == Get(b, k)
    ensures a == b
  {
    assert forall k :: k in a <==> Get(a, k).Some?;
    assert forall k :: k in b <==> Get(b, k).Some?;
    forall k | k in a
      ensures k in b && a[k] == b[k]
    {
      assert Get(a, k) == Get(b, k);
    }
    assert a.Keys == b.Keys;
  }

  predicate NoEmptyLevel(m: Levels) {
    forall f :: f in m ==> m[f] != map[]
  }

  datatype CacheOp =
    | RememberOp(fsid: Fsid, handle: Handle, path: Path)
    | ForgetOp(fsid: Fsid, handle: Handle)
    | ForgetFilesystemOp(fsid: Fsid)
    | ClearOp

  // What an operation means for the one flat map.
  function Apply(flat: map<Key, Path>, op: CacheOp): map<Key, Path> {
    match op
    case RememberOp(fsid, handle, path) => flat[(fsid, handle) := path]
    case ForgetOp(fsid, handle) => flat - {(fsid, handle)}
    case ForgetFilesystemOp(fsid) => map k | k in flat && k.0 != fsid :: flat[k]
    case ClearOp => map[]
  }

  function ApplyAll(flat: map<Key, Path>, ops: seq<CacheOp>): map<Key, Path> {
    if |ops| == 0 then flat else Apply(ApplyAll(flat, ops[..|ops| - 1]), ops[|ops| - 1])
  }

  // One level on its own.
  function Level(f: Fsid, level: map<Handle, Path>): (flat: map<Key, Path>)
    ensures forall k :: Get(flat, k) == if k.0 == f then Get(level, k.1) else None
  {
    map h | h in level :: (f, h) := level[h]
  }

  lemma {:induction false} LevelSize(f: Fsid, level: map<Handle, Path>)
    ensures |Level(f, level)| == |level|
    decreases level.Keys
  {
    if h :| h in level {
      LevelSize(f, level - {h});
      LevelWithout(f, level, h);
      RemoveOne(level, h);
      RemoveOne(Level(f, level), (f, h));
    } else {
      assert level == map[];
      assert Level(f, level) == map[];
    }
  }

  lemma LevelWithout(f: Fsid, level: map<Handle, Path>, h: Handle)
    ensures Level(f, level - {h}) == Level(f, level) - {(f, h)}
  {
    hide Level;
    SameMap(Level(f, level - {h}), Level(f, level) - {(f, h)});
  }

  lemma RemoveOne<K, V>(m: map<K, V>, k: K)
    requires k in m
    ensures |m - {k}| == |m| - 1
  {
    assert (m - {k}).Keys == m.Keys - {k};
    assert |m.Keys| == |m|;
    assert |(m - {k}).Keys| == |m - {k}|;
  }

  lemma DisjointSize<K, V>(a: map<K, V>, b: map<K, V>)
    requires a.Keys !! b.Keys
    ensures |a + b| == |a| + |b|
  {
    assert (a + b).Keys == a.Keys + b.Keys;
    assert |(a + b).Keys| == |a + b| && |a.Keys| == |a| && |b.Keys| == |b|;
  }

  // Taking a filesystem out takes out its level and nothing else.
  lemma FlatSplits(m: Levels, f: Fsid)
    requires f in m
    ensures Flat(m) == Level(f, m[f]) + Flat(m - {f})
    ensures Level(f, m[f]).Keys !! Flat(m - {f}).Keys
    ensures |Flat(m)| == |m[f]| + |Flat(m - {f})|
  {
    hide Flat, Level;
    var level, others := Level(f, m[f]), Flat(m - {f});
    forall k
      ensures Get(Flat(m), k) == Get(level + others, k)
      ensures !(k in level && k in others)
    {
      assert Get(others, k) == Find(m - {f}, k);
    }
    SameMap(Flat(m), level + others);
    LevelSize(f, m[f]);
    DisjointSize(level, others);
  }

  function FilesystemsOf(flat: map<Key, Path>): set<Fsid> {
    set k | k in flat :: k.0
  }

  // With no empty level, the outer level's keys are the filesystems of the entries.
  lemma OuterKeys(m: Levels)
    requires NoEmptyLevel(m)
    ensures m.Keys == FilesystemsOf(Flat(m))
  {
    hide Flat;
    forall f | f in m
      ensures f in FilesystemsOf(Flat(m))
    {
      var h :| h in m[f];
      assert Get(Flat(m), (f, h)) == Some(m[f][h]);
    }
    forall f | f in FilesystemsOf(Flat(m))
      ensures f in m
    {
      var k :| k in Flat(m) && k.0 == f;
      assert Get(Flat(m), k) == Find(m, k);
    }
  }

  type CacheEntry = (Fsid, Handle, Path)

  // The list names every entry of the flat map, no handle twice, and nothing else.
  ghost predicate Lists(entries: seq<CacheEntry>, flat: map<Key, Path>) {
    && KeysDistinct(entries)
    && forall e :: e in entries <==> Get(flat, (e.0, e.1)) == Some(e.2)
  }

  predicate KeysDistinct(entries: seq<CacheEntry>) {
    forall i, j :: 0 <= i < j < |entries| ==> (entries[i].0, entries[i].1) != (entries[j].0, entries[j].1)
  }

  lemma ListsGrow(entries: seq<CacheEntry>, flat: map<Key, Path>, more: seq<CacheEntry>, level: map<Key, Path>)
    requires Lists(entries, flat) && Lists(more, level) && flat.Keys !! level.Keys
    ensures Lists(entries + more, flat + level)
  {
    var all := entries + more;
    forall i, j | 0 <= i < j < |all|
      ensures (all[i].0, all[i].1) != (all[j].0, all[j].1)
    {
      if i < |entries| <= j {
        assert entries[i] in entries && more[j - |entries|] in more;
      }
    }
  }

  lemma ForgetIsFlat(was: Levels, now: Levels, fsid: Fsid, handle: Handle)
    requires forall k :: Find(now, k) == if k == (fsid, handle) then None else Find(was, k)
    ensures Flat(now) == Apply(Flat(was), ForgetOp(fsid, handle))
  {
    hide Flat, Find;
    forall k
      ensures Get(Flat(now), k) == Get(Flat(was) - {(fsid, handle)}, k)
    {
      assert Get(Flat(now), k) == Find(now, k);
      assert Get(Flat(was), k) == Find(was, k);
    }
    SameMap(Flat(now), Flat(was) - {(fsid, handle)});
  }

  lemma RememberIsFlat(was: Levels, now: Levels, fsid: Fsid, handle: Handle, path: Path)
    requires forall k :: Find(now, k) == if k == (fsid, handle) then Some(path) else Find(was, k)
    ensures Flat(now) == Apply(Flat(was), RememberOp(fsid, handle, path))
  {
    hide Flat, Find;
    forall k
      ensures Get(Flat(now), k) == Get(Flat(was)[(fsid, handle) := path], k)
    {
      assert Get(Flat(now), k) == Find(now, k);
      assert Get(Flat(was), k) == Find(was, k);
    }
    SameMap(Flat(now), Flat(was)[(fsid, handle) := path]);
  }

  lemma FlatOfNothing()
    ensures Flat(map[]) == map[]
  {
  }

  lemma LevelOfNothing(f: Fsid)
    ensures Level(f, map[]) == map[]
  {
  }

  lemma ForgetFilesystemIsFlat(was: Levels, fsid: Fsid)
    ensures Flat(was - {fsid}) == Apply(Flat(was), ForgetFilesystemOp(fsid))
  {
    hide Flat;
    var now, after := Flat(was - {fsid}), Apply(Flat(was), ForgetFilesystemOp(fsid));
    forall k
      ensures Get(now, k) == Get(after, k)
    {
      assert Get(now, k) == Find(was - {fsid}, k);
      assert Get(Flat(was), k) == Find(was, k);
    }
    SameMap(now, after);
  }

  class HandleCache {
    var byFilesystem: Levels

    predicate Valid()
      reads this
    {
      NoEmptyLevel(byFilesystem)
    }

    function View(): map<Key, Path>
      reads this
    {
      Flat(byFilesystem)
    }

    constructor ()
      ensures Valid() && View() == map[]
    {
      byFilesystem := map[];
    }

    // `with_path`, for the path itself.
    method PathOf(fsid: Fsid, handle: Handle) returns (r: Option<Path>)
      ensures r == if (fsid, handle) in View() then Some(View()[(fsid, handle)]) else None
    {
      if fsid in byFilesystem && handle in byFilesystem[fsid] {
        return Some(byFilesystem[fsid][handle]);
      }
      return None;
    }

    method Remember(fsid: Fsid, handle: Handle, path: Path)
      requires Valid()
      modifies this
      ensures Valid() && View() == Apply(old(View()), RememberOp(fsid, handle, path))
      ensures View() == old(View())[(fsid, handle) := path]
    {
      hide Flat;
      var level := if fsid in byFilesystem then byFilesystem[fsid] else map[];
      byFilesystem := byFilesystem[fsid := level[handle := path]];
      assert handle in byFilesystem[fsid];
      RememberIsFlat(old(byFilesystem), byFilesystem, fsid, handle, path);
    }

    method Forget(fsid: Fsid, handle: Handle)
      requires Valid()
      modifies this
      ensures Valid() && View() == Apply(old(View()), ForgetOp(fsid, handle))
      ensures forall k :: Get(View(), k) == if k == (fsid, handle) then None else Get(old(View()), k)
    {
      hide Flat;
      if fsid in byFilesystem {
        var level := byFilesystem[fsid] - {handle};
        byFilesystem := byFilesystem[fsid := level];
        if level == map[] {
          byFilesystem := byFilesystem - {fsid};
        }
      }
      forall k: Key
        ensures Find(byFilesystem, k) == if k == (fsid, handle) then None else Find(old(byFilesystem), k)
      {
        if k.0 == fsid && fsid in old(byFilesystem) {
          var was := old(byFilesystem)[fsid];
          assert Get(was - {handle}, k.1) == if k.1 == handle then None else Get(was, k.1);
        }
      }
      ForgetIsFlat(old(byFilesystem), byFilesystem, fsid, handle);
    }

    method ForgetFilesystem(fsid: Fsid)
      requires Valid()
      modifies this
      ensures Valid() && View() == Apply(old(View()), ForgetFilesystemOp(fsid))
      ensures forall k: Key :: Get(View(), k) == if k.0 == fsid then None else Get(old(View()), k)
    {
      hide Flat;
      byFilesystem := byFilesystem - {fsid};
      ForgetFilesystemIsFlat(old(byFilesystem), fsid);
    }

    method Clear()
      modifies this
      ensures Valid() && View() == Apply(old(View()), ClearOp) && View() == map[]
    {
      byFilesystem := map[];
    }

    method Len() returns (n: nat)
      ensures n == |View()|
    {
      hide Flat, Level;
      n := 0;
      var rest := byFilesystem;
      while rest != map[]
        invariant n + |Flat(rest)| == |View()|
        decreases rest.Keys
      {
        var f :| f in rest;
        FlatSplits(rest, f);
        n := n + |rest[f]|;
        rest := rest - {f};
      }
      FlatOfNothing();
    }

    method IsEmpty() returns (empty: bool)
      ensures empty <==> View() == map[]
    {
      empty := forall f | f in byFilesystem :: byFilesystem[f] == map[];
      if !empty {
        var f :| f in byFilesystem && byFilesystem[f] != map[];
        var h :| h in byFilesystem[f];
        assert (f, h) in View();
      }
    }

    method Filesystems() returns (n: nat)
      requires Valid()
      ensures n == |FilesystemsOf(View())|
    {
      OuterKeys(byFilesystem);
      n := |byFilesystem|;
    }

    method Entries() returns (entries: seq<CacheEntry>)
      ensures Lists(entries, View())
    {
      hide Flat, Level, Partway, Lists;
      entries := [];
      var rest := byFilesystem;
      PartwayStart(rest);
      while rest != map[]
        invariant Partway(entries, rest, byFilesystem)
        decreases rest.Keys
      {
        var f :| f in rest;
        var level := LevelEntries(f, rest[f]);
        PartwayNext(entries, rest, byFilesystem, f, level);
        entries := entries + level;
        rest := rest - {f};
      }
      PartwayEnd(entries, byFilesystem);
    }
  }

  // The levels not in `rest` are listed.
  ghost predicate Partway(entries: seq<CacheEntry>, rest: Levels, whole: Levels) {
    exists done :: Lists(entries, done) && done.Keys !! Flat(rest).Keys && done + Flat(rest) == Flat(whole)
  }

  lemma PartwayStart(m: Levels)
    ensures Partway([], m, m)
  {
    hide Flat, Lists;
    NothingListed();
    assert map[] + Flat(m) == Flat(m);
  }

  lemma PartwayNext(entries: seq<CacheEntry>, rest: Levels, whole: Levels, f: Fsid, level: seq<CacheEntry>)
    requires Partway(entries, rest, whole) && f in rest && Lists(level, Level(f, rest[f]))
    ensures Partway(entries + level, rest - {f}, whole)
  {
    hide Flat, Lists, Level;
    var done :| Lists(entries, done) && done.Keys !! Flat(rest).Keys && done + Flat(rest) == Flat(whole);
    FlatSplits(rest, f);
    var flat, others := Level(f, rest[f]), Flat(rest - {f});
    DisjointAgain(done, flat, others);
    ListsGrow(entries, done, level, flat);
  }

  lemma DisjointAgain(done: map<Key, Path>, level: map<Key, Path>, others: map<Key, Path>)
    requires done.Keys !! (level + others).Keys && level.Keys !! others.Keys
    ensures done.Keys !! level.Keys && (done + level).Keys !! others.Keys
    ensures done + (level + others) == (done + level) + others
  {
    assert (level + others).Keys == level.Keys + others.Keys;
  }

  lemma PartwayEnd(entries: seq<CacheEntry>, whole: Levels)
    requires Partway(entries, map[], whole)
    ensures Lists(entries, Flat(whole))
  {
    hide Lists;
    var done :| Lists(entries, done) && done + Flat(map[]) == Flat(whole);
    FlatOfNothing();
    assert done + map[] == done;
  }

  lemma NothingListed()
    ensures Lists([], map[])
  {
  }

  lemma LevelTakesOne(f: Fsid, level: map<Handle, Path>, h: Handle)
    requires h in level
    ensures var one := map[(f, h) := level[h]];
      && Lists([(f, h, level[h])], one)
      && one.Keys !! Level(f, level - {h}).Keys
      && Level(f, level) == one + Level(f, level - {h})
  {
    hide Level;
    var one := map[(f, h) := level[h]];
    LevelWithout(f, level, h);
    assert Get(Level(f, level), (f, h)) == Some(level[h]);
    SameMap(Level(f, level), one + Level(f, level - {h}));
  }

  method LevelEntries(f: Fsid, level: map<Handle, Path>) returns (entries: seq<CacheEntry>)
    ensures Lists(entries, Level(f, level))
  {
    hide Level, Lists;
    NothingListed();
    entries := [];
    var rest := level;
    ghost var done: map<Key, Path> := map[];
    while rest != map[]
      invariant Lists(entries, done)
      invariant done.Keys !! Level(f, rest).Keys && done + Level(f, rest) == Level(f, level)
      decreases rest.Keys
    {
      var h :| h in rest;
      ghost var one := map[(f, h) := rest[h]];
      LevelTakesOne(f, rest, h);
      ListsGrow(entries, done, [(f, h, rest[h])], one);
      entries := entries + [(f, h, rest[h])];
      done := done + one;
      rest := rest - {h};
    }
    LevelOfNothing(f);
    assert done + map[] == done;
  }

  lemma ApplyNone(flat: map<Key, Path>, ops: seq<CacheOp>)
    ensures ApplyAll(flat, ops[..0]) == flat
  {
  }

  lemma ApplyNext(flat: map<Key, Path>, ops: seq<CacheOp>, i: nat)
    requires i < |ops|
    ensures ApplyAll(flat, ops[..i + 1]) == Apply(ApplyAll(flat, ops[..i]), ops[i])
  {
    assert ops[..i + 1][..i] == ops[..i];
  }

  // Over every sequence of operations the cache is the flat map they add up to.
  method RunOps(cache: HandleCache, ops: seq<CacheOp>)
    requires cache.Valid()
    modifies cache
    ensures cache.Valid() && cache.View() == ApplyAll(old(cache.View()), ops)
  {
    hide Flat, Apply, ApplyAll, NoEmptyLevel;
    var i := 0;
    ApplyNone(cache.View(), ops);
    while i < |ops|
      invariant i <= |ops| && cache.Valid()
      invariant cache.View() == ApplyAll(old(cache.View()), ops[..i])
    {
      ApplyNext(old(cache.View()), ops, i);
      match ops[i] {
        case RememberOp(fsid, handle, path) => cache.Remember(fsid, handle, path);
        case ForgetOp(fsid, handle) => cache.Forget(fsid, handle);
        case ForgetFilesystemOp(fsid) => cache.ForgetFilesystem(fsid);
        case ClearOp => cache.Clear();
      }
      i := i + 1;
    }
    assert ops[..i] == ops;
  }
}
