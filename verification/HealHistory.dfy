/** What healing promises: every inbound link follows its file, over one save and over any history of
    saves, and a document that is healed stays as it is. */
module HealHistory {
  import opened Wrappers
  import opened Text
  import opened PercentCoding
  import opened Paths
  import opened Heal
  import opened HealContent

  /** The destination names the file at `path`, read from `dir`. */
  predicate PointsAt(dest: string, dir: string, path: string) {
    !IsExternal(dest) && ResolvedLink(dest, dir) == Some(path)
  }

  predicate GoodPath(path: string) {
    IsNormalPath(path) && PlainPath(path)
  }

  predicate GoodRenames(renames: seq<Rename>) {
    forall r <- renames :: GoodPath(r.1)
  }

  /** Where the file at `path` is after the renames. */
  function Moved(path: string, renames: seq<Rename>): string {
    NewPath(renames, path).GetOr(path)
  }

  predicate IsOld(path: string, renames: seq<Rename>) {
    NewPath(renames, path).Some?
  }

  /** No file is moved onto a path that another file leaves. */
  predicate NoneReused(renames: seq<Rename>) {
    forall r <- renames :: !IsOld(r.1, renames)
  }

  lemma {:induction false} NewPathIsListed(renames: seq<Rename>, path: string)
    ensures NewPath(renames, path).Some? ==> exists r <- renames :: r.0 == path && r.1 == NewPath(renames, path).value
  {
    if renames != [] && renames[0].0 != path {
      NewPathIsListed(renames[1..], path);
      assert forall r <- renames[1..] :: r in renames;
    } else if renames != [] {
      assert renames[0] in renames;
    }
  }

  function HealOnce(dest: string, dir: string, renames: seq<Rename>): string {
    HealedDest(dest, dir, renames).GetOr(dest)
  }

  /** A healed destination names the moved file from every directory; any other destination is untouched. */
  lemma LinkFollows(dest: string, dir: string, renames: seq<Rename>, from: string)
    requires GoodRenames(renames)
    ensures HealedDest(dest, dir, renames).Some? <==> exists path :: PointsAt(dest, dir, path) && IsOld(path, renames)
    ensures HealedDest(dest, dir, renames).Some? ==>
      PointsAt(HealOnce(dest, dir, renames), from, Moved(ResolvedLink(dest, dir).value, renames))
    ensures Fragment(HealOnce(dest, dir, renames)) == Fragment(dest)
  {
    hide ResolvedLink, Canonical, IsNormalPath, PlainPath, NewPath;
    if HealedDest(dest, dir, renames).Some? {
      var path := ResolvedLink(dest, dir).value;
      assert PointsAt(dest, dir, path) && IsOld(path, renames);
      NewPathIsListed(renames, path);
      HealedResolvesIff(NewPath(renames, path).value, dest, from);
    }
  }

  /** After one healing of a whole document: text is untouched, links that named no moved file are untouched,
      and every link that named a moved file names it still, from wherever the document is read. */
  lemma DocumentFollows(pieces: seq<Piece>, dir: string, renames: seq<Rename>, i: nat, from: string)
    requires GoodRenames(renames) && i < |pieces|
    ensures var was, now := pieces[i], HealedPieces(pieces, dir, renames)[i];
      was.Dest? == now.Dest?
      && (was != now ==>
            was.Dest? && ResolvedLink(was.text, dir).Some? && IsOld(ResolvedLink(was.text, dir).value, renames))
      && (was.Dest? && !IsExternal(was.text) && ResolvedLink(was.text, dir).Some?
            && IsOld(ResolvedLink(was.text, dir).value, renames) ==>
          PointsAt(now.text, from, Moved(ResolvedLink(was.text, dir).value, renames))
          && Fragment(now.text) == Fragment(was.text))
  {
    hide GoodRenames, ResolvedLink, IsExternal, Canonical, NewPath;
    var was := pieces[i];
    if was.Dest? {
      LinkFollows(was.text, dir, renames, from);
      if ResolvedLink(was.text, dir).Some? && !IsExternal(was.text) {
        assert IsOld(ResolvedLink(was.text, dir).value, renames) ==>
          PointsAt(was.text, dir, ResolvedLink(was.text, dir).value);
      }
    }
  }

  // ----- a second healing -----

  /** A link just healed onto `newPath` is healed again exactly when `newPath` is itself an old path. */
  lemma HealedAgainIff(newPath: string, dest: string, dir: string, renames: seq<Rename>)
    requires GoodPath(newPath)
    ensures HealedDest(Canonical(newPath, dest), dir, renames).Some? <==> IsOld(newPath, renames)
  {
    hide ResolvedLink, Canonical, IsNormalPath, PlainPath, NewPath, IsExternal;
    HealedResolvesIff(newPath, dest, dir);
  }

  lemma HealedOnceStays(dest: string, dir: string, renames: seq<Rename>)
    requires GoodRenames(renames) && NoneReused(renames)
    ensures HealedDest(HealOnce(dest, dir, renames), dir, renames).None?
  {
    hide ResolvedLink, Canonical, IsNormalPath, PlainPath, NewPath, IsExternal;
    if HealedDest(dest, dir, renames).Some? {
      var path := ResolvedLink(dest, dir).value;
      NewPathIsListed(renames, path);
      HealedAgainIff(NewPath(renames, path).value, dest, dir, renames);
    }
  }

  /** When no new path is an old one, a second healing rewrites nothing: no link to an old path is left. */
  lemma {:induction false} HealedDocumentStays(pieces: seq<Piece>, dir: string, renames: seq<Rename>)
    requires GoodRenames(renames) && NoneReused(renames)
    ensures var healed := HealedPieces(pieces, dir, renames);
      HealCount(healed, dir, renames) == 0 && HealedPieces(healed, dir, renames) == healed
  {
    hide HealedDest, GoodRenames, NoneReused;
    if pieces != [] {
      HealedDocumentStays(pieces[1..], dir, renames);
      var p := pieces[0];
      if p.Dest? {
        HealedOnceStays(p.text, dir, renames);
      }
      var healed := HealedPieces(pieces, dir, renames);
      assert healed[1..] == HealedPieces(pieces[1..], dir, renames);
      assert PieceEdit(healed[0], 0, dir, renames) == [];
      assert HealedPiece(healed[0], dir, renames) == healed[0];
    }
  }

  /** When two files swap names the condition fails: the first healing sends a link to the first file onto
      its new path, and a second healing sends it back. */
  lemma SwapHealsBack(a: string, b: string, dest: string, dir: string)
    requires GoodPath(a) && GoodPath(b) && a != b && PointsAt(dest, dir, a)
    ensures var swap := [(a, b), (b, a)];
      HealOnce(HealOnce(dest, dir, swap), dir, swap) == Canonical(a, Canonical(b, dest))
      && PointsAt(HealOnce(HealOnce(dest, dir, swap), dir, swap), dir, a)
  {
    hide ResolvedLink, Canonical, IsNormalPath, PlainPath, IsExternal;
    var swap := [(a, b), (b, a)];
    assert swap[1..] == [(b, a)];
    assert NewPath(swap, a) == Some(b) && NewPath(swap, b) == Some(a);
    HealedResolvesIff(b, dest, dir);
    HealedResolvesIff(a, Canonical(b, dest), dir);
  }

  // ----- a history of saves -----

  /** The destination is read from the root, so it names the same file from every directory. */
  predicate IsRooted(dest: string) {
    !IsExternal(dest) && StartsWith(Decoded(PathPart(dest)), "/")
  }

  lemma RootedAnywhere(dest: string, dir: string, from: string)
    requires IsRooted(dest)
    ensures ResolvedLink(dest, dir) == ResolvedLink(dest, from)
  {
    hide Walked, Decoded;
  }

  lemma CanonicalIsRooted(newPath: string, dest: string)
    ensures IsRooted(Canonical(newPath, dest))
  {
    hide SpacesEncoded, Decoded, Canonical;
    CanonicalParts(newPath, dest);
    CanonicalStarts(newPath, dest);
    SlashDecodes(SpacesEncoded(PathPart(newPath)));
  }

  /** One save: its renames, and the directory the document is in by then. */
  datatype Save = Save(renames: seq<Rename>, dir: string)

  function HealedThrough(dest: string, history: seq<Save>): string
    decreases |history|
  {
    if history == [] then dest
    else HealedThrough(HealOnce(dest, history[0].dir, history[0].renames), history[1..])
  }

  function MovedThrough(path: string, history: seq<Save>): string
    decreases |history|
  {
    if history == [] then path else MovedThrough(Moved(path, history[0].renames), history[1..])
  }

  /** Over any history of saves -- files moving again and again, the document itself moving too -- a link
      written from the root names its file wherever the file has got to, and keeps its fragment. */
  lemma {:induction false} LinkFollowsHistory(dest: string, path: string, history: seq<Save>, from: string)
    requires IsRooted(dest) && ResolvedLink(dest, from) == Some(path)
    requires forall s <- history :: GoodRenames(s.renames)
    ensures var now := HealedThrough(dest, history);
      IsRooted(now) && PointsAt(now, from, MovedThrough(path, history)) && Fragment(now) == Fragment(dest)
    decreases |history|
  {
    hide ResolvedLink, Canonical, IsRooted, GoodRenames, NewPath, Fragment, IsExternal;
    if history == [] {
      assert !IsExternal(dest) by { RootedIsInternal(dest); }
    } else {
      var s := history[0];
      assert s in history;
      var next := HealOnce(dest, s.dir, s.renames);
      RootedAnywhere(dest, s.dir, from);
      RootedIsInternal(dest);
      LinkFollows(dest, s.dir, s.renames, from);
      if HealedDest(dest, s.dir, s.renames).Some? {
        CanonicalIsRooted(NewPath(s.renames, path).value, dest);
      }
      LinkFollowsHistory(next, Moved(path, s.renames), history[1..], from);
    }
  }

  lemma RootedIsInternal(dest: string)
    requires IsRooted(dest)
    ensures !IsExternal(dest)
  {
  }

  // ----- relative links -----

  /** Some save moves the file. */
  predicate EverMoved(path: string, history: seq<Save>)
    decreases |history|
  {
    history != [] && (IsOld(path, history[0].renames) || EverMoved(path, history[1..]))
  }

  /** At every save up to the first that moves the file the document is still in `dir`. */
  predicate StaysUntilMoved(dir: string, path: string, history: seq<Save>)
    decreases |history|
  {
    history == []
    || (history[0].dir == dir && (IsOld(path, history[0].renames) || StaysUntilMoved(dir, path, history[1..])))
  }

  lemma UnmovedStays(dest: string, dir: string, path: string, renames: seq<Rename>)
    requires PointsAt(dest, dir, path)
    ensures HealedDest(dest, dir, renames).Some? <==> IsOld(path, renames)
    ensures !IsOld(path, renames) ==> HealOnce(dest, dir, renames) == dest && Moved(path, renames) == path
    ensures IsOld(path, renames) ==>
      HealOnce(dest, dir, renames) == Canonical(NewPath(renames, path).value, dest)
  {
    hide ResolvedLink, Canonical, NewPath, IsExternal;
  }

  /** A link of any form, relative ones included, follows its file as long as the document has not left its directory
      before the file first moves -- renames within one directory, the document's own too, do not make it leave.
      Until then the link is as it was written; from then on it names the file from every directory. */
  lemma {:induction false} RelativeLinkFollows(dest: string, dir: string, path: string, history: seq<Save>,
                                               from: string)
    requires PointsAt(dest, dir, path) && StaysUntilMoved(dir, path, history)
    requires forall s <- history :: GoodRenames(s.renames)
    ensures var now, there := HealedThrough(dest, history), MovedThrough(path, history);
      PointsAt(now, dir, there) && Fragment(now) == Fragment(dest)
      && if EverMoved(path, history) then IsRooted(now) && PointsAt(now, from, there) else now == dest && there == path
    decreases |history|
  {
    hide PointsAt, HealOnce, Moved, IsOld, ResolvedLink, Canonical, IsRooted, GoodRenames, NewPath, Fragment;
    hide IsExternal;
    if history != [] {
      var s := history[0];
      assert s in history && forall x <- history[1..] :: x in history;
      UnmovedStays(dest, dir, path, s.renames);
      if IsOld(path, s.renames) {
        FirstHealing(dest, dir, path, s.renames);
        var next := HealOnce(dest, dir, s.renames);
        LinkFollowsHistory(next, Moved(path, s.renames), history[1..], dir);
        RootedAnywhere(next, dir, from);
        LinkFollowsHistory(next, Moved(path, s.renames), history[1..], from);
      } else {
        RelativeLinkFollows(dest, dir, path, history[1..], from);
      }
    }
  }

  lemma FirstHealing(dest: string, dir: string, path: string, renames: seq<Rename>)
    requires PointsAt(dest, dir, path) && IsOld(path, renames) && GoodRenames(renames)
    ensures var next := HealOnce(dest, dir, renames);
      IsRooted(next) && ResolvedLink(next, dir) == Some(Moved(path, renames)) && Fragment(next) == Fragment(dest)
  {
    hide ResolvedLink, Canonical, IsRooted, NewPath, Fragment, IsExternal;
    LinkFollows(dest, dir, renames, dir);
    CanonicalIsRooted(NewPath(renames, path).value, dest);
  }
}
