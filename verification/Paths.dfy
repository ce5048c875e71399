// Joining an entry name onto a directory's path, and what the join does to the
// path's components.
module Paths {
  import opened Bytes

  const SLASH: byte := 47
  const DOT: byte := 46

  // The two names that stand for the directory itself.
  predicate NamesDirItself(name: Name) {
    name == [] || name == [DOT]
  }

  predicate Refused(name: Name) {
    !NamesDirItself(name) && (SLASH in name || 0 in name || name == [DOT, DOT])
  }

  // `PathBuf::push`: an absolute path replaces, a relative one is appended after a
  // separator, which is added only where there is none.
  function Push(base: Path, name: Name): Path {
    if |name| != 0 && name[0] == SLASH then name
    else if |base| != 0 && base[|base| - 1] != SLASH then base + ([SLASH] + name)
    else base + name
  }

  function JoinDir(base: Path, name: Name): Path {
    if NamesDirItself(name) then base else Push(base, name)
  }

  datatype Component = RootDir | CurDir | ParentDir | Normal(name: seq<byte>)

  // The pieces between separators, empty ones included.
  function Split(p: Path): (pieces: seq<seq<byte>>)
    ensures |pieces| >= 1
  {
    if |p| == 0 then [[]]
    else
      var rest := Split(p[1..]);
      if p[0] == SLASH then [[]] + rest else [[p[0]] + rest[0]] + rest[1..]
  }

  // `Path::components` of one piece: empty pieces are dropped, and so is `.` unless
  // the path starts with it.
  function Piece(piece: seq<byte>, leading: bool): seq<Component> {
    if piece == [] then []
    else if piece == [DOT] then (if leading then [CurDir] else [])
    else if piece == [DOT, DOT] then [ParentDir]
    else [Normal(piece)]
  }

  function Pieces(pieces: seq<seq<byte>>, leading: bool): seq<Component> {
    if |pieces| == 0 then []
    else
      var n := |pieces| - 1;
      Pieces(pieces[..n], leading) + Piece(pieces[n], leading && n == 0)
  }

  predicate HasRoot(p: Path) {
    |p| != 0 && p[0] == SLASH
  }

  function Components(p: Path): seq<Component> {
    (if HasRoot(p) then [RootDir] else []) + Pieces(Split(p), !HasRoot(p))
  }

  lemma {:induction false} SplitPlain(name: Name)
    requires SLASH !in name
    ensures Split(name) == [name]
  {
    if |name| != 0 {
      SplitPlain(name[1..]);
      assert [name[0]] + name[1..] == name;
    }
  }

  lemma {:induction false} SplitAppends(p: Path, name: Name)
    requires SLASH !in name
    ensures Split(p + ([SLASH] + name)) == Split(p) + [name]
  {
    var whole := p + ([SLASH] + name);
    if |p| == 0 {
      assert whole[1..] == name;
      SplitPlain(name);
    } else {
      assert whole[1..] == p[1..] + ([SLASH] + name);
      SplitAppends(p[1..], name);
      var rest := Split(p[1..]);
      assert (rest + [name])[1..] == rest[1..] + [name];
    }
  }

  lemma PiecesAppend(pieces: seq<seq<byte>>, piece: seq<byte>, leading: bool)
    ensures Pieces(pieces + [piece], leading) == Pieces(pieces, leading) + Piece(piece, leading && |pieces| == 0)
  {
    assert (pieces + [piece])[..|pieces|] == pieces;
  }

  // A path that ends in `q/name` has the components of `q/` and then `name`.
  lemma LastPiece(q: Path, name: Name)
    requires SLASH !in name
    ensures Components(q + ([SLASH] + name)) ==
      (if HasRoot(q + [SLASH]) then [RootDir] else []) + (Pieces(Split(q), !HasRoot(q + [SLASH])) + Piece(name, false))
  {
    hide Split, Pieces, Piece;
    SplitAppends(q, name);
    PiecesAppend(Split(q), name, !HasRoot(q + [SLASH]));
    assert (q + ([SLASH] + name))[0] == (q + [SLASH])[0];
  }

  lemma OntoNothing(name: Name)
    requires SLASH !in name
    ensures Components(name) == Piece(name, true) && Components([]) == []
  {
    SplitPlain(name);
    PiecesOfOne(name, true);
    PiecesOfOne([], true);
  }

  lemma OntoSlash(q: Path, name: Name)
    requires SLASH !in name
    ensures Components(q + ([SLASH] + name)) == Components(q + [SLASH]) + Piece(name, false)
  {
    hide Split, Pieces, Components;
    LastPiece(q, name);
    LastPiece(q, []);
    assert q + ([SLASH] + []) == q + [SLASH];
    var root, inner := if HasRoot(q + [SLASH]) then [RootDir] else [], Pieces(Split(q), !HasRoot(q + [SLASH]));
    assert root + (inner + Piece(name, false)) == (root + (inner + [])) + Piece(name, false);
  }

  lemma OntoPlain(base: Path, name: Name)
    requires SLASH !in name && |base| != 0
    ensures Components(base + ([SLASH] + name)) == Components(base) + Piece(name, false)
  {
    hide Split, Pieces, Piece;
    LastPiece(base, name);
    assert (base + [SLASH])[0] == base[0];
    var root, inner := if HasRoot(base) then [RootDir] else [], Pieces(Split(base), !HasRoot(base));
    assert root + (inner + Piece(name, false)) == (root + inner) + Piece(name, false);
  }

  // A name that is not refused and does not stand for the directory adds itself to
  // the components, once, at the end; the others change not one byte.
  lemma JoinAddsOneComponent(base: Path, name: Name)
    requires !Refused(name)
    ensures NamesDirItself(name) ==> JoinDir(base, name) == base
    ensures !NamesDirItself(name) ==> Components(JoinDir(base, name)) == Components(base) + [Normal(name)]
  {
    hide Components;
    if !NamesDirItself(name) {
      if |base| == 0 {
        assert base + name == name;
        OntoNothing(name);
      } else if base[|base| - 1] == SLASH {
        var q := base[..|base| - 1];
        assert base == q + [SLASH] && base + name == q + ([SLASH] + name);
        OntoSlash(q, name);
      } else {
        OntoPlain(base, name);
      }
    }
  }

  lemma PiecesOfOne(piece: seq<byte>, leading: bool)
    ensures Pieces([piece], leading) == Piece(piece, leading)
  {
    assert [piece] == [] + [piece];
    PiecesAppend([], piece, leading);
  }

  // A join stays below its base: two joins onto one base differ as their names do.
  lemma JoinIsInjective(base: Path, x: Name, y: Name)
    requires !Refused(x) && !Refused(y) && !NamesDirItself(x) && !NamesDirItself(y)
    requires JoinDir(base, x) == JoinDir(base, y)
    ensures x == y
  {
    JoinAddsOneComponent(base, x);
    JoinAddsOneComponent(base, y);
    var all := Components(JoinDir(base, x));
    assert all[|all| - 1] == Normal(x) == Normal(y);
  }
}
