/** What one update of the registry leaves on record: the stamp of the repository that was put, the other rows'
    fields, the legacy list's paths without a time, and the order of the rows. */
module RegistryLaws {
  import opened Wrappers
  import opened RegistryRows
  import opened Registry
  import Sorting
  import T = Text

  // ----- the order of the rows -----

  predicate AtMostKey(a: Json, b: Json) {
    SortKey(a) == SortKey(b) || Sorting.Less(SortKey(a), SortKey(b))
  }

  predicate KeysSorted(rows: seq<Json>) {
    forall i, j :: 0 <= i < j < |rows| ==> AtMostKey(rows[i], rows[j])
  }

  lemma AtMostKeyOrder(a: Json, b: Json, c: Json)
    ensures AtMostKey(a, b) || AtMostKey(b, a)
    ensures AtMostKey(a, b) && AtMostKey(b, c) ==> AtMostKey(a, c)
  {
    Sorting.LessTotal(SortKey(a), SortKey(b));
    if Sorting.Less(SortKey(a), SortKey(b)) && Sorting.Less(SortKey(b), SortKey(c)) {
      Sorting.LessTransitive(SortKey(a), SortKey(b), SortKey(c));
    }
  }

  lemma {:induction false} InsertKeepsSorted(row: Json, rows: seq<Json>)
    requires KeysSorted(rows)
    ensures KeysSorted(InsertRow(row, rows))
  {
    hide SortKey;
    if rows == [] || Sorting.Less(SortKey(row), SortKey(rows[0])) {
      forall x | x in rows
        ensures rows != [] && AtMostKey(row, x)
      {
        AtMostKeyOrder(row, rows[0], x);
      }
    } else {
      AtMostKeyOrder(rows[0], row, row);
      Sorting.LessTotal(SortKey(row), SortKey(rows[0]));
      InsertKeepsSorted(row, rows[1..]);
      InsertRowElements(row, rows[1..]);
      assert forall x <- rows[1..] :: AtMostKey(rows[0], x);
    }
  }

  lemma {:induction false} SortRowsSorted(rows: seq<Json>)
    ensures KeysSorted(SortRows(rows))
  {
    if rows != [] {
      SortRowsSorted(rows[..|rows| - 1]);
      InsertKeepsSorted(rows[|rows| - 1], SortRows(rows[..|rows| - 1]));
    }
  }

  lemma {:induction false} InsertRowCount(row: Json, rows: seq<Json>)
    ensures multiset(InsertRow(row, rows)) == multiset(rows) + multiset{row}
  {
    if rows != [] && !Sorting.Less(SortKey(row), SortKey(rows[0])) {
      InsertRowCount(row, rows[1..]);
      assert rows == [rows[0]] + rows[1..];
    } else {
      assert multiset([row] + rows) == multiset{row} + multiset(rows);
    }
  }

  lemma {:induction false} SortRowsCount(rows: seq<Json>)
    ensures multiset(SortRows(rows)) == multiset(rows)
  {
    if rows != [] {
      var init, last := rows[..|rows| - 1], rows[|rows| - 1];
      assert rows == init + [last];
      SortRowsCount(init);
      InsertRowCount(last, SortRows(init));
    }
  }

  // ----- the document -----

  /** An update keeps what else the document says, and takes a `repos` that is no list, or none, for the empty list. */
  lemma RestOfDocumentStays(doc: Json, legacy: seq<string>, e: Edit, key: string -> string)
    requires doc.Obj?
    ensures forall name :: name != "repos" ==> Field(Updated(doc, legacy, e, key), name) == Field(doc, name)
    ensures Field(doc, "repos").None? || !Field(doc, "repos").value.Arr? ==>
      Updated(doc, legacy, e, key) == Updated(Obj(doc.fields["repos" := Arr([])]), legacy, e, key)
  {
    hide SortRows, Folded, Edited, WithLegacy;
    var emptied := doc.fields["repos" := Arr([])];
    var rows := Arr(SortRows(Folded(Edited(WithLegacy([], legacy), e), key)));
    assert emptied["repos" := rows] == doc.fields["repos" := rows];
  }

  // ----- the legacy list -----

  /** A path of the legacy list, on record without a time. */
  predicate IsUntimed(row: Json, lines: seq<string>) {
    Path(row).Some? && Path(row).value in LegacyPaths(lines) && LastUsed(row).None? && Genesis(row).None?
    && row.Obj? && row.fields.Keys == {"path", "last_used"}
  }

  /** The registry's own rows come first and as they were; each path of the legacy list that none of them has
      joins them once, without a time. */
  lemma {:induction false} LegacyJoins(rows: seq<Json>, lines: seq<string>)
    ensures var all := WithLegacy(rows, lines);
      rows <= all
      && (forall row <- all[|rows|..] :: IsUntimed(row, lines) && Path(row).value !in PathsOf(rows))
      && forall i, j :: |rows| <= i < j < |all| ==> Path(all[i]) != Path(all[j])
    decreases |lines|
  {
    hide IndexOfPath, T.Trim, PathsOf;
    if lines != [] {
      var path := T.Trim(lines[0]);
      assert lines == [lines[0]] + lines[1..];
      assert forall p <- LegacyPaths(lines[1..]) :: p in LegacyPaths(lines);
      IndexOfPathHeld(rows, path);
      if path == "" || IndexOfPath(rows, path).Some? {
        LegacyJoins(rows, lines[1..]);
      } else {
        var row := Obj(map["path" := Str(path), "last_used" := Null]);
        PathsOfConcat(rows, [row]);
        PathsOfOne(row);
        LegacyJoins(rows + [row], lines[1..]);
        OneJoined(rows, row, WithLegacy(rows + [row], lines[1..]), lines);
      }
    }
  }

  lemma OneJoined(rows: seq<Json>, row: Json, all: seq<Json>, lines: seq<string>)
    requires rows + [row] <= all && IsUntimed(row, lines) && Path(row).value !in PathsOf(rows)
    requires PathsOf(rows + [row]) == PathsOf(rows) + {Path(row).value}
    requires forall x <- all[|rows| + 1..] :: IsUntimed(x, lines) && Path(x).value !in PathsOf(rows + [row])
    requires forall i, j :: |rows| + 1 <= i < j < |all| ==> Path(all[i]) != Path(all[j])
    ensures rows <= all
    ensures forall x <- all[|rows|..] :: IsUntimed(x, lines) && Path(x).value !in PathsOf(rows)
    ensures forall i, j :: |rows| <= i < j < |all| ==> Path(all[i]) != Path(all[j])
  {
    hide PathsOf, IsUntimed;
    var k := |rows|;
    assert all[k] == (rows + [row])[k] == row && rows == (rows + [row])[..k];
    assert all[k..] == [row] + all[k + 1..];
    assert forall j :: k < j < |all| ==> all[j] == all[k + 1..][j - k - 1] && all[j] in all[k + 1..];
  }

  // ----- a put -----

  /** The first row recorded under the path. */
  predicate IsFirst(rows: seq<Json>, path: string, i: nat) {
    i < |rows| && Path(rows[i]) == Some(path) && forall j :: 0 <= j < i ==> Path(rows[j]) != Some(path)
  }

  predicate IsNew(rows: seq<Json>, path: string) {
    forall row <- rows :: Path(row) != Some(path)
  }

  /** The time of a row after the put: the first row under the path takes the clock's reading, if there is one. */
  function TimeAfter(rows: seq<Json>, i: nat, path: string, now: Option<string>): Option<string>
    requires i < |rows|
  {
    if IsFirst(rows, path, i) && now.Some? then now else LastUsed(rows[i])
  }

  /** A time that stands for the directory after the put. */
  ghost predicate IsTimeAt(t: Option<string>, rows: seq<Json>, key: string -> string, path: string,
                           now: Option<string>) {
    (exists i: nat :: i < |rows| && At(rows[i], key, key(path)) && TimeAfter(rows, i, path, now) == t)
    || (IsNew(rows, path) && t == now)
  }

  ghost predicate IsLatest(t: Option<string>, rows: seq<Json>, key: string -> string, path: string,
                           now: Option<string>) {
    IsTimeAt(t, rows, key, path, now) && forall x :: IsTimeAt(x, rows, key, path, now) ==> AtMostText(x, t)
  }

  /** The row's fields but its time and genesis are those of the other, or of none. */
  ghost predicate SameOtherFields(r: Json, was: Option<Json>) {
    forall name :: name !in {"path", "last_used", "genesis"} ==>
      Field(r, name) == if was.Some? then Field(was.value, name) else None
  }

  /** The row that was put, but for its path, as the edit leaves it. */
  ghost predicate IsPutRow(row: Json, rows: seq<Json>, path: string, now: Option<string>, genesis: Option<string>) {
    row.Obj?
    && (forall i: nat :: IsFirst(rows, path, i) ==>
          LastUsed(row) == TimeAfter(rows, i, path, now)
          && Genesis(row) == (if genesis.Some? then genesis else Genesis(rows[i]))
          && SameOtherFields(row, Some(rows[i])))
    && (IsNew(rows, path) ==> LastUsed(row) == now && Genesis(row) == genesis && SameOtherFields(row, None))
  }

  ghost predicate EditedAt(rows: seq<Json>, edited: seq<Json>, i: nat, path: string, now: Option<string>,
                           genesis: Option<string>) {
    IsFirst(rows, path, i) && |edited| == |rows| && edited == rows[i := edited[i]]
    && Path(edited[i]) == Some(path) && IsPutRow(edited[i], rows, path, now, genesis)
  }

  lemma PutEdits(rows: seq<Json>, path: string, now: Option<string>, genesis: Option<string>)
    ensures var edited := Edited(rows, Put(path, now, genesis));
      if IsNew(rows, path) then
        |edited| == |rows| + 1 && edited[..|rows|] == rows && Path(edited[|rows|]) == Some(path)
        && IsPutRow(edited[|rows|], rows, path, now, genesis)
      else
        |edited| == |rows| && (exists i: nat :: EditedAt(rows, edited, i, path, now, genesis))
  {
    FirstIndex(rows, path);
    var edited := Edited(rows, Put(path, now, genesis));
    match IndexOfPath(rows, path) {
      case Some(i) =>
        assert forall j: nat :: IsFirst(rows, path, j) ==> j == i;
        StampedFields(rows[i], now, genesis);
        assert EditedAt(rows, edited, i, path, now, genesis);
      case None =>
        NewRowFields(path, now, genesis);
    }
  }

  lemma {:induction false} FirstIndex(rows: seq<Json>, path: string)
    ensures match IndexOfPath(rows, path)
      case Some(i) => IsFirst(rows, path, i) && rows[i].Obj?
      case None => IsNew(rows, path)
  {
    hide Path;
    if rows != [] {
      FirstIndex(rows[1..], path);
      assert rows == [rows[0]] + rows[1..];
      PathIsObject(rows[0]);
    }
  }

  lemma PathIsObject(row: Json)
    ensures Path(row).Some? ==> row.Obj?
  {
  }

  lemma StampedFields(row: Json, now: Option<string>, genesis: Option<string>)
    requires row.Obj? && Path(row).Some?
    ensures var r := Stamped(row, now, genesis);
      r.Obj? && Path(r) == Path(row) && LastUsed(r) == (if now.Some? then now else LastUsed(row))
      && Genesis(r) == (if genesis.Some? then genesis else Genesis(row)) && SameOtherFields(r, Some(row))
  {
  }

  lemma NewRowFields(path: string, now: Option<string>, genesis: Option<string>)
    ensures var r := Obj(map["path" := Str(path), "last_used" := OrNull(now), "genesis" := OrNull(genesis)]);
      Path(r) == Some(path) && LastUsed(r) == now && Genesis(r) == genesis && SameOtherFields(r, None)
  {
  }

  /** The rows after the edit: those there were, one of them put, or the put row at the end. */
  ghost predicate IsEdited(edited: seq<Json>, rows: seq<Json>, at: nat, path: string, now: Option<string>,
                           genesis: Option<string>) {
    at < |edited| && Path(edited[at]) == Some(path) && IsPutRow(edited[at], rows, path, now, genesis)
    && if IsNew(rows, path) then edited == rows + [edited[at]] && at == |rows|
       else IsFirst(rows, path, at) && |edited| == |rows| && edited == rows[at := edited[at]]
  }

  lemma PutPlace(rows: seq<Json>, path: string, now: Option<string>, genesis: Option<string>) returns (at: nat)
    ensures IsEdited(Edited(rows, Put(path, now, genesis)), rows, at, path, now, genesis)
  {
    hide Edited, IsPutRow;
    PutEdits(rows, path, now, genesis);
    var edited := Edited(rows, Put(path, now, genesis));
    if IsNew(rows, path) {
      at := |rows|;
      assert edited == edited[..|rows|] + [edited[at]];
    } else {
      at :| EditedAt(rows, edited, at, path, now, genesis);
    }
  }

  /** The times of the edited rows are the times that stand for the directory after the put. */
  lemma EditedTimes(edited: seq<Json>, rows: seq<Json>, at: nat, path: string, now: Option<string>,
                    genesis: Option<string>, key: string -> string, t: Option<string>)
    requires IsEdited(edited, rows, at, path, now, genesis)
    ensures IsTimeAt(t, rows, key, path, now) <==> exists x <- edited :: At(x, key, key(path)) && LastUsed(x) == t
  {
    hide LastUsed, Path, SameOtherFields, Genesis;
    var k := key(path);
    assert edited[at] in edited && At(edited[at], key, k);
    if x :| x in edited && At(x, key, k) && LastUsed(x) == t {
      var j :| 0 <= j < |edited| && edited[j] == x;
      if j != at || !IsNew(rows, path) {
        assert At(rows[j], key, k) && TimeAfter(rows, j, path, now) == t;
      }
    }
    if i: nat :| i < |rows| && At(rows[i], key, k) && TimeAfter(rows, i, path, now) == t {
      assert edited[i] in edited && At(edited[i], key, k) && LastUsed(edited[i]) == t;
    }
  }

  /** Another row that resolves to the directory. */
  predicate IsOther(rows: seq<Json>, path: string, key: string -> string, j: nat) {
    j < |rows| && At(rows[j], key, key(path)) && !IsFirst(rows, path, j)
  }

  /** The put row was used later than any other of the directory. */
  ghost predicate PutWins(rows: seq<Json>, path: string, now: Option<string>, key: string -> string) {
    forall j: nat :: IsOther(rows, path, key, j) ==>
      (IsNew(rows, path) ==> LessText(LastUsed(rows[j]), now))
      && forall i: nat :: IsFirst(rows, path, i) ==> LessText(LastUsed(rows[j]), TimeAfter(rows, i, path, now))
  }

  ghost predicate PutIsAlone(rows: seq<Json>, path: string, key: string -> string) {
    forall j: nat :: !IsOther(rows, path, key, j)
  }

  /** What the rows after a put say: they are in the order of their paths, no path twice. One row stands for the
      directory, used at the latest of the times that stand for it; it has the given genesis when the put row was
      used last, and is the put row when no other row resolves to the directory. Every other row speaks for the rows
      that resolve to its path, as they were. */
  ghost predicate PutRecorded(rows: seq<Json>, after: seq<Json>, path: string, now: Option<string>,
                              genesis: Option<string>, key: string -> string) {
    InOrder(after)
    && (exists r <- after :: Path(r) == Some(key(path)))
    && (forall r <- after :: Path(r) == Some(key(path)) ==> IsDirectoryRow(r, rows, path, now, genesis, key))
    && forall r <- after :: Path(r) != Some(key(path)) ==> Path(r).Some? && SpeaksFor(r, rows, key, Path(r).value)
  }

  predicate InOrder(rows: seq<Json>) {
    forall i, j :: 0 <= i < j < |rows| ==>
      Path(rows[i]).Some? && Path(rows[j]).Some? && Sorting.Less(Path(rows[i]).value, Path(rows[j]).value)
  }

  ghost predicate IsDirectoryRow(r: Json, rows: seq<Json>, path: string, now: Option<string>, genesis: Option<string>,
                                 key: string -> string) {
    IsLatest(LastUsed(r), rows, key, path, now)
    && (PutWins(rows, path, now, key) && genesis.Some? ==> Genesis(r) == genesis)
    && (PutIsAlone(rows, path, key) ==> IsPutRow(r, rows, path, now, genesis))
  }

  lemma DirectoryRow(edited: seq<Json>, rows: seq<Json>, at: nat, r: Json, path: string, now: Option<string>,
                     genesis: Option<string>, key: string -> string)
    requires IsEdited(edited, rows, at, path, now, genesis) && SpeaksFor(r, edited, key, key(path))
    ensures IsDirectoryRow(r, rows, path, now, genesis, key)
  {
    hide LastUsed, Path, Genesis, IsPutRow, FieldsOf, AtMostText, LessText, Keeps;
    var k := key(path);
    forall t
      ensures IsTimeAt(t, rows, key, path, now) <==> exists x <- edited :: At(x, key, k) && LastUsed(x) == t
    {
      EditedTimes(edited, rows, at, path, now, genesis, key, t);
    }
    if PutWins(rows, path, now, key) {
      WinnerKept(edited, rows, at, r, path, now, genesis, key);
      if genesis.Some? {
        PutGenesis(edited[at], rows, at, path, now, genesis);
        KeptGenesis(edited[at], r);
      }
    }
    if PutIsAlone(rows, path, key) {
      AloneIsPut(edited, rows, at, r, path, now, genesis, key);
    }
  }

  lemma PutGenesis(row: Json, rows: seq<Json>, at: nat, path: string, now: Option<string>, genesis: Option<string>)
    requires IsPutRow(row, rows, path, now, genesis) && genesis.Some? && (IsNew(rows, path) || IsFirst(rows, path, at))
    ensures Genesis(row) == genesis
  {
  }

  lemma KeptGenesis(row: Json, r: Json)
    requires Keeps(row, r)
    ensures Genesis(row).Some? ==> Genesis(r) == Genesis(row)
  {
  }

  lemma PutTime(edited: seq<Json>, rows: seq<Json>, at: nat, path: string, now: Option<string>, genesis: Option<string>)
    requires IsEdited(edited, rows, at, path, now, genesis)
    ensures LastUsed(edited[at]) == if IsNew(rows, path) then now else TimeAfter(rows, at, path, now)
  {
  }

  lemma NotLess(a: Option<string>, b: Option<string>)
    ensures LessText(a, b) ==> !AtMostText(b, a)
  {
    if a.Some? && b.Some? && Sorting.Less(a.value, b.value) && Sorting.Less(b.value, a.value) {
      Sorting.LessTransitive(a.value, b.value, a.value);
      Sorting.LessIrreflexive(a.value);
    }
    if a.Some? {
      Sorting.LessIrreflexive(a.value);
    }
  }

  lemma WinnerKept(edited: seq<Json>, rows: seq<Json>, at: nat, r: Json, path: string, now: Option<string>,
                   genesis: Option<string>, key: string -> string)
    requires IsEdited(edited, rows, at, path, now, genesis) && SpeaksFor(r, edited, key, key(path))
    requires PutWins(rows, path, now, key)
    ensures Keeps(edited[at], r) && LastUsed(r) == LastUsed(edited[at])
  {
    hide LastUsed, Path, Genesis, IsPutRow, FieldsOf, AtMostText, LessText, Keeps;
    var k := key(path);
    var x :| x in edited && At(x, key, k) && LastUsed(x) == LastUsed(r) && Keeps(x, r);
    var j :| 0 <= j < |edited| && edited[j] == x;
    PutTime(edited, rows, at, path, now, genesis);
    assert At(edited[at], key, k) && AtMostText(LastUsed(edited[at]), LastUsed(x));
    if j != at {
      assert rows[j] == x && !IsFirst(rows, path, j);
      assert IsOther(rows, path, key, j);
      NotLess(LastUsed(x), LastUsed(edited[at]));
    }
  }

  lemma AloneIsPut(edited: seq<Json>, rows: seq<Json>, at: nat, r: Json, path: string, now: Option<string>,
                   genesis: Option<string>, key: string -> string)
    requires IsEdited(edited, rows, at, path, now, genesis) && SpeaksFor(r, edited, key, key(path))
    requires PutIsAlone(rows, path, key)
    ensures IsPutRow(r, rows, path, now, genesis)
  {
    hide LastUsed, Path, Genesis, IsPutRow, AtMostText, LessText, Field;
    var k, p := key(path), edited[at];
    WinnerKept(edited, rows, at, r, path, now, genesis, key);
    forall m: nat | m < |rows| && At(rows[m], key, k)
      ensures IsFirst(rows, path, m)
    {
      assert !IsOther(rows, path, key, m);
    }
    forall x | x in edited && At(x, key, k)
      ensures x == p
    {
      var j :| 0 <= j < |edited| && edited[j] == x;
    }
    SameRowFields(p, r, edited, key, k);
    PutRowAs(p, r, rows, path, now, genesis);
  }

  lemma SameRowFields(p: Json, r: Json, edited: seq<Json>, key: string -> string, k: string)
    requires Keeps(p, r) && SpeaksFor(r, edited, key, k)
    requires p in edited && forall x <- edited :: At(x, key, k) ==> x == p
    ensures Genesis(r) == Genesis(p)
    ensures forall name :: name !in {"path", "last_used", "genesis"} ==> Field(r, name) == Field(p, name)
  {
    hide Field, RegistryRows.Text;
    forall name | name !in {"path", "last_used", "genesis"}
      ensures Field(r, name) == Field(p, name)
    {
      if Field(r, name).Some? {
        var x :| x in edited && At(x, key, k) && Field(x, name) == Field(r, name);
      }
    }
  }

  lemma PutRowAs(p: Json, r: Json, rows: seq<Json>, path: string, now: Option<string>, genesis: Option<string>)
    requires IsPutRow(p, rows, path, now, genesis) && r.Obj? && LastUsed(r) == LastUsed(p) && Genesis(r) == Genesis(p)
    requires forall name :: name !in {"path", "last_used", "genesis"} ==> Field(r, name) == Field(p, name)
    ensures IsPutRow(r, rows, path, now, genesis)
  {
    hide Field, RegistryRows.Text, Path;
  }

  // ----- the other rows -----

  /** Only the rows that resolve to its path matter to a row. */
  lemma SpeaksForSame(r: Json, a: seq<Json>, b: seq<Json>, key: string -> string, k: string)
    requires SpeaksFor(r, a, key, k) && forall x :: At(x, key, k) ==> (x in a <==> x in b)
    ensures SpeaksFor(r, b, key, k)
  {
    hide At, LastUsed, Genesis, Field, Keeps, AtMostText;
    assert forall x <- b :: At(x, key, k) ==> x in a;
    assert forall x <- a :: At(x, key, k) ==> x in b;
    var best :| best in a && At(best, key, k) && LastUsed(best) == LastUsed(r) && Keeps(best, r);
    forall name | name != "path" && name != "genesis" && Field(r, name).Some?
      ensures exists x <- b :: At(x, key, k) && Field(x, name) == Field(r, name)
    {
      var x :| x in a && At(x, key, k) && Field(x, name) == Field(r, name);
      assert x in b;
    }
  }

  lemma SameElsewhere(edited: seq<Json>, rows: seq<Json>, at: nat, path: string, now: Option<string>,
                      genesis: Option<string>, key: string -> string, k: string)
    requires IsEdited(edited, rows, at, path, now, genesis) && k != key(path)
    ensures forall x :: At(x, key, k) ==> (x in edited <==> x in rows)
  {
    hide IsPutRow, Path;
    forall x | At(x, key, k)
      ensures x in edited <==> x in rows
    {
      if x in edited {
        var j :| 0 <= j < |edited| && edited[j] == x;
        assert rows[j] == x;
      }
      if x in rows {
        var j :| 0 <= j < |rows| && rows[j] == x;
        assert edited[j] == x;
      }
    }
  }

  lemma FoldedInOrder(rows: seq<Json>, key: string -> string)
    ensures InOrder(SortRows(Folded(rows, key)))
  {
    hide SpeaksFor, Folded, SortRows, Path;
    FoldKeeps(rows, key);
    var folded := Folded(rows, key);
    var sorted := SortRows(folded);
    SortRowsSorted(folded);
    SortRowsElements(folded);
    SortRowsCount(folded);
    forall i, j | 0 <= i < j < |sorted|
      ensures Path(sorted[i]).Some? && Path(sorted[j]).Some?
      ensures Sorting.Less(Path(sorted[i]).value, Path(sorted[j]).value)
    {
      assert sorted[i] in folded && sorted[j] in folded;
      DistinctPaths(folded, sorted, i, j);
      SortKeyIsPath(sorted[i]);
      SortKeyIsPath(sorted[j]);
      assert AtMostKey(sorted[i], sorted[j]);
    }
  }

  lemma SortKeyIsPath(row: Json)
    ensures Path(row).Some? ==> SortKey(row) == Path(row).value
  {
  }

  lemma DistinctPaths(folded: seq<Json>, sorted: seq<Json>, i: nat, j: nat)
    requires multiset(sorted) == multiset(folded) && i < j < |sorted|
    requires forall a, b :: 0 <= a < b < |folded| ==> Path(folded[a]) != Path(folded[b])
    ensures Path(sorted[i]) != Path(sorted[j])
  {
    hide Path;
    assert sorted[i] in multiset(sorted) && sorted[j] in multiset(sorted);
    var a :| 0 <= a < |folded| && folded[a] == sorted[i];
    var b :| 0 <= b < |folded| && folded[b] == sorted[j];
    if a == b {
      TwiceCounted(sorted, i, j);
      OnceCounted(folded, a);
    }
  }

  lemma TwiceCounted<T>(s: seq<T>, i: nat, j: nat)
    requires i < j < |s| && s[i] == s[j]
    ensures multiset(s)[s[i]] >= 2
  {
    assert s == s[..j] + s[j..];
    assert s[..j][i] == s[i] && s[j..][0] == s[i];
    assert s[i] in multiset(s[..j]) && s[i] in multiset(s[j..]);
  }

  lemma OnceCounted(s: seq<Json>, a: nat)
    requires a < |s| && forall x, y :: 0 <= x < y < |s| ==> Path(s[x]) != Path(s[y])
    ensures multiset(s)[s[a]] == 1
  {
    hide Path;
    assert s == s[..a] + ([s[a]] + s[a + 1..]);
    assert s[a] !in s[..a] && s[a] !in s[a + 1..];
    assert multiset(s[..a])[s[a]] == 0 && multiset(s[a + 1..])[s[a]] == 0;
  }

  // ----- one update, and the committed document -----

  /** After a put the registry's rows say what `PutRecorded` says of the registry's and the legacy list's rows. */
  lemma PutStamps(doc: Json, legacy: seq<string>, path: string, now: Option<string>, genesis: Option<string>,
                  key: string -> string)
    requires doc.Obj?
    ensures PutRecorded(WithLegacy(Repos(doc), legacy), Repos(Updated(doc, legacy, Put(path, now, genesis), key)),
                        path, now, genesis, key)
  {
    hide SpeaksFor, Folded, SortRows, Path, IsDirectoryRow, InOrder, Edited, IsEdited, WithLegacy;
    var rows := WithLegacy(Repos(doc), legacy);
    var edited := Edited(rows, Put(path, now, genesis));
    var at := PutPlace(rows, path, now, genesis);
    FoldKeeps(edited, key);
    FoldedInOrder(edited, key);
    SortRowsElements(Folded(edited, key));
    var after := Repos(Updated(doc, legacy, Put(path, now, genesis), key));
    assert after == SortRows(Folded(edited, key));
    PutIsThere(edited, rows, at, path, now, genesis);
    forall r | r in after
      ensures Path(r).Some?
      ensures Path(r) == Some(key(path)) ==> IsDirectoryRow(r, rows, path, now, genesis, key)
      ensures Path(r) != Some(key(path)) ==> SpeaksFor(r, rows, key, Path(r).value)
    {
      if Path(r) == Some(key(path)) {
        DirectoryRow(edited, rows, at, r, path, now, genesis, key);
      } else {
        SameElsewhere(edited, rows, at, path, now, genesis, key, Path(r).value);
        SpeaksForSame(r, edited, rows, key, Path(r).value);
      }
    }
  }

  lemma PutIsThere(edited: seq<Json>, rows: seq<Json>, at: nat, path: string, now: Option<string>,
                   genesis: Option<string>)
    requires IsEdited(edited, rows, at, path, now, genesis)
    ensures exists row <- edited :: Path(row) == Some(path)
  {
    assert edited[at] in edited;
  }

  /** After a removal every row at another path speaks for the rows that resolve to it, as they were. */
  lemma RemovalKeeps(doc: Json, legacy: seq<string>, path: string, key: string -> string)
    requires doc.Obj?
    ensures var after := Repos(Updated(doc, legacy, Remove(path), key));
      InOrder(after)
      && forall r <- after :: Path(r) != Some(key(path)) ==>
           Path(r).Some? && SpeaksFor(r, WithLegacy(Repos(doc), legacy), key, Path(r).value)
  {
    hide SpeaksFor, Folded, SortRows, Path, InOrder, WithoutPath, WithLegacy;
    var rows := WithLegacy(Repos(doc), legacy);
    var edited := WithoutPath(rows, path);
    FoldKeeps(edited, key);
    FoldedInOrder(edited, key);
    SortRowsElements(Folded(edited, key));
    var after := Repos(Updated(doc, legacy, Remove(path), key));
    assert after == SortRows(Folded(edited, key));
    WithoutPathRows(rows, path);
    forall r | r in after && Path(r) != Some(key(path))
      ensures Path(r).Some? && SpeaksFor(r, rows, key, Path(r).value)
    {
      assert forall x :: At(x, key, Path(r).value) ==> Path(x) != Some(path);
      SpeaksForSame(r, edited, rows, key, Path(r).value);
    }
  }

  lemma {:induction false} WithoutPathRows(rows: seq<Json>, path: string)
    ensures forall x :: x in WithoutPath(rows, path) <==> x in rows && Path(x) != Some(path)
  {
    hide Path;
    if rows != [] {
      WithoutPathRows(rows[1..], path);
      assert rows == [rows[0]] + rows[1..];
    }
  }

  /** In every reachable state of the protocol a rename puts on record what the process set out to put, over what
      the file and the legacy list hold at that moment. */
  lemma RenameRecords(s: State, p: nat, reg0: RegFile, key: string -> string)
    requires Inv(s, reg0, key) && Enabled(s, Rename(p)) && PcOf(s, p).e.Put?
    ensures var e := PcOf(s, p).e;
      PutRecorded(WithLegacy(Repos(ReadDoc(s.reg)), LegacyText(s.legacy)),
                  Repos(ReadDoc(Step(s, Rename(p), key).reg)), e.path, e.now, e.genesis, key)
  {
    hide Updated, PutRecorded, WithLegacy, Repos, LegacyText;
    assert PcOk(s, p, key);
    var e := PcOf(s, p).e;
    PutStamps(ReadDoc(s.reg), LegacyText(s.legacy), e.path, e.now, e.genesis, key);
  }

  // ----- the lock -----

  /** The lock is held exactly by the process that is inside. */
  ghost predicate LockIsHeld(s: State) {
    forall p: nat :: s.lock == Some(p) <==> InCritical(PcOf(s, p))
  }

  lemma LockStep(s: State, ev: Event, key: string -> string)
    requires LockIsHeld(s) && Enabled(s, ev)
    ensures LockIsHeld(Step(s, ev, key))
  {
    hide Updated;
    var s' := Step(s, ev, key);
    forall p: nat ensures s'.lock == Some(p) <==> InCritical(PcOf(s', p)) {
      assert s.lock == Some(p) <==> InCritical(PcOf(s, p));
      assert s.lock == Some(ev.p) <==> InCritical(PcOf(s, ev.p));
    }
  }

  lemma {:induction false} LockRun(s: State, events: seq<Event>, key: string -> string)
    requires LockIsHeld(s) && IsRun(s, events, key)
    ensures LockIsHeld(Run(s, events, key))
    decreases |events|
  {
    hide LockIsHeld, Step;
    if events != [] {
      LockStep(s, events[0], key);
      LockRun(Step(s, events[0], key), events[1..], key);
    }
  }

  /** However the processes interleave and die, the lock is never left behind: whoever holds it is inside, and when
      nobody is, every process that waits for it may take it. */
  lemma LockComesFree(reg0: RegFile, legacy0: Option<Legacy>, events: seq<Event>, key: string -> string)
    requires IsRun(Begin(reg0, legacy0), events, key)
    ensures var s := Run(Begin(reg0, legacy0), events, key);
      (forall p: nat :: s.lock == Some(p) <==> InCritical(PcOf(s, p)))
      && ((forall p: nat :: !InCritical(PcOf(s, p))) ==>
            forall p: nat :: PcOf(s, p).Waiting? ==> Enabled(s, Lock(p)))
  {
    var s0 := Begin(reg0, legacy0);
    assert LockIsHeld(s0);
    LockRun(s0, events, key);
    var s := Run(s0, events, key);
    if s.lock.Some? {
      assert InCritical(PcOf(s, s.lock.value));
    }
  }

  /** The steps of one update, once its process has the lock. */
  function Steps(p: nat): seq<Event> {
    [Lock(p), Compute(p), BeginWrite(p), EndWrite(p), Rename(p), DropLegacy(p, true), Quit(p)]
  }

  lemma RunFirst(s: State, ev: Event, rest: seq<Event>, key: string -> string)
    requires Enabled(s, ev) && IsRun(Step(s, ev, key), rest, key)
    ensures IsRun(s, [ev] + rest, key) && Run(s, [ev] + rest, key) == Run(Step(s, ev, key), rest, key)
  {
    hide Step, Enabled;
    assert ([ev] + rest)[1..] == rest;
  }

  /** The process has written the next document beside the registry, which is otherwise as it was at `s`. */
  ghost predicate HasWritten(s: State, at: State, p: nat, body: Json) {
    PcOf(s, p).Waiting? && PcOf(at, p) == Written(PcOf(s, p).e, body, s.legacy.Some?)
    && p in at.tmps && at.tmps[p] == Whole(body)
    && at.reg == s.reg && at.legacy == s.legacy && at.lock == Some(p) && at.turn == s.turn + 1 && at.log == s.log
    && forall q: nat :: q != p ==> PcOf(at, q) == PcOf(s, q)
  }

  lemma WritesNext(s: State, p: nat, key: string -> string) returns (at: State)
    requires PcOf(s, p).Waiting? && s.lock.None?
    ensures HasWritten(s, at, p, Updated(ReadDoc(s.reg), LegacyText(s.legacy), PcOf(s, p).e, key))
    ensures forall rest :: IsRun(at, rest, key) ==>
      IsRun(s, [Lock(p)] + ([Compute(p)] + ([BeginWrite(p)] + ([EndWrite(p)] + rest))), key)
      && Run(s, [Lock(p)] + ([Compute(p)] + ([BeginWrite(p)] + ([EndWrite(p)] + rest))), key) == Run(at, rest, key)
  {
    hide Updated, LegacyText, ReadDoc, Run, IsRun;
    var s1 := Step(s, Lock(p), key);
    var s2 := Step(s1, Compute(p), key);
    var s3 := Step(s2, BeginWrite(p), key);
    at := Step(s3, EndWrite(p), key);
    forall rest | IsRun(at, rest, key)
      ensures IsRun(s, [Lock(p)] + ([Compute(p)] + ([BeginWrite(p)] + ([EndWrite(p)] + rest))), key)
      ensures Run(s, [Lock(p)] + ([Compute(p)] + ([BeginWrite(p)] + ([EndWrite(p)] + rest))), key) == Run(at, rest, key)
    {
      RunFirst(s3, EndWrite(p), rest, key);
      RunFirst(s2, BeginWrite(p), [EndWrite(p)] + rest, key);
      RunFirst(s1, Compute(p), [BeginWrite(p)] + ([EndWrite(p)] + rest), key);
      RunFirst(s, Lock(p), [Compute(p)] + ([BeginWrite(p)] + ([EndWrite(p)] + rest)), key);
    }
  }

  /** The next update is on record, the legacy list gone and the lock free. */
  ghost predicate HasCommitted(s: State, done: State, p: nat, body: Json) {
    PcOf(s, p).Waiting? && done.reg == Whole(body) && done.legacy.None? && done.lock.None? && PcOf(done, p).Idle?
    && done.log == s.log + [Commit(PcOf(s, p).e, LegacyText(s.legacy), s.turn + 1)]
    && forall q: nat :: q != p ==> PcOf(done, q) == PcOf(s, q)
  }

  lemma CommitsNext(s: State, at: State, p: nat, body: Json, key: string -> string)
    requires HasWritten(s, at, p, body)
    ensures var last := [Rename(p)] + ([DropLegacy(p, true)] + ([Quit(p)] + []));
      IsRun(at, last, key) && HasCommitted(s, Run(at, last, key), p, body)
  {
    hide LegacyText;
    var s5 := Step(at, Rename(p), key);
    var s6 := Step(s5, DropLegacy(p, true), key);
    var s7 := Step(s6, Quit(p), key);
    assert HasCommitted(s, s7, p, body);
    assert IsRun(s7, [], key) && Run(s7, [], key) == s7;
    hide Run, IsRun, HasCommitted, Step;
    RunFirst(s6, Quit(p), [], key);
    RunFirst(s5, DropLegacy(p, true), [Quit(p)] + [], key);
    RunFirst(at, Rename(p), [DropLegacy(p, true)] + ([Quit(p)] + []), key);
  }

  /** A process that finds the lock free and lives to the end is never in anybody's way: its update is on record as
      the next one, the legacy list is gone, and the lock is free again. */
  lemma UpdateCompletes(s: State, p: nat, key: string -> string)
    requires PcOf(s, p).Waiting? && s.lock.None?
    ensures IsRun(s, Steps(p), key)
    ensures HasCommitted(s, Run(s, Steps(p), key), p,
                         Updated(ReadDoc(s.reg), LegacyText(s.legacy), PcOf(s, p).e, key))
  {
    hide Updated, LegacyText, ReadDoc, Run, IsRun, HasCommitted, HasWritten, Enabled, Step;
    var at := WritesNext(s, p, key);
    CommitsNext(s, at, p, Updated(ReadDoc(s.reg), LegacyText(s.legacy), PcOf(s, p).e, key), key);
    var last := [Rename(p)] + ([DropLegacy(p, true)] + ([Quit(p)] + []));
    assert Steps(p) == [Lock(p)] + ([Compute(p)] + ([BeginWrite(p)] + ([EndWrite(p)] + last)));
  }
}
