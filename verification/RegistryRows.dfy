/** The rows of the machine registry (src/lib.rs): the fold of rows that name one directory, and the
    two edits made under the lock. */
module RegistryRows {
  import opened Wrappers
  import Sorting

  datatype Json =
    | Null
    | Str(s: string)
    | Num(n: int)
    | Bool(b: bool)
    | Arr(items: seq<Json>)
    | Obj(fields: map<string, Json>)

  function Field(row: Json, name: string): Option<Json> {
    if row.Obj? && name in row.fields then Some(row.fields[name]) else None
  }

  /** `get(name).and_then(as_str)` */
  function Text(row: Json, name: string): Option<string> {
    match Field(row, name) case Some(Str(s)) => Some(s) case _ => None
  }

  /** `entry_path` */
  function Path(row: Json): Option<string> {
    Text(row, "path")
  }

  function WithField(row: Json, name: string, v: Json): Json
    requires row.Obj?
  {
    Obj(row.fields[name := v])
  }

  /** Comparison of `Option<&str>`: absent is less than any text. */
  predicate LessText(a: Option<string>, b: Option<string>) {
    match (a, b)
    case (_, None) => false
    case (None, Some(_)) => true
    case (Some(x), Some(y)) => Sorting.Less(x, y)
  }

  predicate AtMostText(a: Option<string>, b: Option<string>) {
    a == b || LessText(a, b)
  }

  function LastUsed(row: Json): Option<string> {
    Text(row, "last_used")
  }

  function Genesis(row: Json): Option<string> {
    Text(row, "genesis")
  }

  /** Two rows for one directory: the one used last, with the other's genesis and unknown fields. */
  function Merged(have: Json, row: Json, k: string): Json
    requires have.Obj? && row.Obj?
  {
    var newer := LessText(LastUsed(have), LastUsed(row));
    var keep, other := if newer then row else have, if newer then have else row;
    var named := if Genesis(keep).None? && Genesis(other).Some?
                 then WithField(keep, "genesis", Str(Genesis(other).value)) else keep;
    WithField(Obj(other.fields + named.fields), "path", Str(k))
  }

  function IndexOfPath(rows: seq<Json>, k: string): Option<nat> {
    if rows == [] then None
    else if Path(rows[0]) == Some(k) then Some(0)
    else match IndexOfPath(rows[1..], k) case Some(i) => Some(i + 1) case None => None
  }

  /** One row arriving at the folded list. Rows without a path are dropped. */
  function Arrive(folded: seq<Json>, row: Json, key: string -> string): seq<Json>
    requires forall r <- folded :: r.Obj?
  {
    match Path(row)
    case None => folded
    case Some(path) =>
      var k := key(path);
      match IndexOfPath(folded, k)
      case None => folded + [WithField(row, "path", Str(k))]
      case Some(i) => if i < |folded| then folded[i := Merged(folded[i], row, k)] else folded
  }

  function Folded(rows: seq<Json>, key: string -> string): (r: seq<Json>)
    ensures forall row <- r :: row.Obj?
  {
    if rows == [] then [] else Arrive(Folded(rows[..|rows| - 1], key), rows[|rows| - 1], key)
  }

  // ----- what the fold keeps -----

  predicate At(row: Json, key: string -> string, k: string) {
    Path(row).Some? && key(Path(row).value) == k
  }

  /** Every field of `row` is in `r` as it was. */
  ghost predicate Keeps(row: Json, r: Json) {
    (forall name ::
      name != "path" && name != "genesis" && Field(row, name).Some? ==> Field(r, name) == Field(row, name))
    && (Genesis(row).Some? ==> Genesis(r) == Genesis(row))
  }

  /** The folded row `r` speaks for all of `rows` that resolve to `k`: it is a row used last of them with all
      that row's fields, has a genesis exactly when one of them has, and has exactly the fields they have. */
  ghost predicate SpeaksFor(r: Json, rows: seq<Json>, key: string -> string, k: string) {
    r.Obj? && Path(r) == Some(k)
    && (exists row <- rows :: At(row, key, k) && LastUsed(row) == LastUsed(r) && Keeps(row, r))
    && (forall row <- rows :: At(row, key, k) ==> AtMostText(LastUsed(row), LastUsed(r)))
    && (Genesis(r).Some? ==> exists row <- rows :: At(row, key, k) && Genesis(row) == Genesis(r))
    && (forall row <- rows :: At(row, key, k) && Genesis(row).Some? ==> Genesis(r).Some?)
    && FieldsOf(r, rows, key, k)
  }

  ghost predicate FieldsOf(r: Json, rows: seq<Json>, key: string -> string, k: string) {
    (forall row, name :: row in rows && At(row, key, k) && Field(row, name).Some? ==> Field(r, name).Some?)
    && (forall name :: name != "path" && name != "genesis" && Field(r, name).Some? ==>
          exists row <- rows :: At(row, key, k) && Field(row, name) == Field(r, name))
  }

  ghost predicate FoldInv(folded: seq<Json>, rows: seq<Json>, key: string -> string) {
    (forall r <- folded :: Path(r).Some? && SpeaksFor(r, rows, key, Path(r).value))
    && (forall row <- rows :: Path(row).Some? ==> exists r <- folded :: Path(r) == Some(key(Path(row).value)))
    && (forall i, j :: 0 <= i < j < |folded| ==> Path(folded[i]) != Path(folded[j]))
  }

  lemma {:induction false} IndexOfPathRight(rows: seq<Json>, k: string)
    ensures match IndexOfPath(rows, k)
      case Some(i) => i < |rows| && Path(rows[i]) == Some(k)
      case None => forall r <- rows :: Path(r) != Some(k)
  {
    if rows != [] {
      IndexOfPathRight(rows[1..], k);
      assert rows == [rows[0]] + rows[1..];
    }
  }

  lemma SpeaksForOne(row: Json, rows: seq<Json>, key: string -> string, k: string)
    requires At(row, key, k) && forall x <- rows :: !At(x, key, k)
    ensures row.Obj? && SpeaksFor(WithField(row, "path", Str(k)), rows + [row], key, k)
  {
    var r := WithField(row, "path", Str(k));
    var rows' := rows + [row];
    assert rows'[|rows|] == row;
    assert forall x <- rows' :: At(x, key, k) ==> x == row;
    assert forall name :: name != "path" ==> Field(r, name) == Field(row, name);
    assert LastUsed(r) == LastUsed(row) && Genesis(r) == Genesis(row);
  }

  /** Rows that resolve elsewhere do not matter. */
  lemma SpeaksForFrame(r: Json, rows: seq<Json>, row: Json, key: string -> string, k: string)
    requires SpeaksFor(r, rows, key, k) && !At(row, key, k)
    ensures SpeaksFor(r, rows + [row], key, k)
  {
    var rows' := rows + [row];
    assert forall x :: x in rows' && At(x, key, k) ==> x in rows;
    assert forall x <- rows :: x in rows';
  }

  lemma LessTextTotal(a: Option<string>, b: Option<string>, c: Option<string>)
    ensures a == b || LessText(a, b) || LessText(b, a)
    ensures AtMostText(a, b) && AtMostText(b, c) ==> AtMostText(a, c)
  {
    if a.Some? && b.Some? {
      Sorting.LessTotal(a.value, b.value);
      if c.Some? && AtMostText(a, b) && AtMostText(b, c) && a != b && b != c {
        Sorting.LessTransitive(a.value, b.value, c.value);
      }
    }
  }

  lemma MergedKeeps(have: Json, row: Json, k: string)
    requires have.Obj? && row.Obj?
    ensures Keeps(if LessText(LastUsed(have), LastUsed(row)) then row else have, Merged(have, row, k))
  {
  }

  lemma KeepsTransitive(a: Json, b: Json, c: Json)
    requires Keeps(a, b) && Keeps(b, c)
    ensures Keeps(a, c)
  {
  }

  lemma MergedFields(have: Json, row: Json, k: string)
    requires have.Obj? && row.Obj?
    ensures var m := Merged(have, row, k);
      m.Obj? && Path(m) == Some(k)
      && LastUsed(m) == (if LessText(LastUsed(have), LastUsed(row)) then LastUsed(row) else LastUsed(have))
      && (Genesis(m).Some? <==> Genesis(have).Some? || Genesis(row).Some?)
      && (Genesis(m).Some? ==> Genesis(m) == Genesis(have) || Genesis(m) == Genesis(row))
      && (forall name :: Field(have, name).Some? || Field(row, name).Some? ==> Field(m, name).Some?)
      && (forall name :: name != "path" && name != "genesis" && Field(m, name).Some? ==>
            Field(m, name) == Field(have, name) || Field(m, name) == Field(row, name))
  {
  }

  lemma SpeaksForMerged(have: Json, rows: seq<Json>, row: Json, key: string -> string, k: string)
    requires SpeaksFor(have, rows, key, k) && At(row, key, k)
    ensures row.Obj? && SpeaksFor(Merged(have, row, k), rows + [row], key, k)
  {
    hide Merged;
    hide Keeps;
    MergedFields(have, row, k);
    MergedKeeps(have, row, k);
    var m, rows' := Merged(have, row, k), rows + [row];
    assert rows'[|rows|] == row;
    assert forall x <- rows :: x in rows';
    assert forall x <- rows' :: x in rows || x == row;
    MergedLastUsed(have, rows, row, key, k, m);
    MergedFieldsOf(have, rows, row, key, k, m);
  }

  lemma MergedLastUsed(have: Json, rows: seq<Json>, row: Json, key: string -> string, k: string, m: Json)
    requires SpeaksFor(have, rows, key, k) && At(row, key, k)
    requires LastUsed(m) == (if LessText(LastUsed(have), LastUsed(row)) then LastUsed(row) else LastUsed(have))
    requires Keeps(if LessText(LastUsed(have), LastUsed(row)) then row else have, m)
    ensures exists x <- rows + [row] :: At(x, key, k) && LastUsed(x) == LastUsed(m) && Keeps(x, m)
    ensures forall x <- rows + [row] :: At(x, key, k) ==> AtMostText(LastUsed(x), LastUsed(m))
  {
    var rows' := rows + [row];
    assert rows'[|rows|] == row;
    hide Keeps;
    var best :| best in rows && At(best, key, k) && LastUsed(best) == LastUsed(have) && Keeps(best, have);
    assert best in rows';
    if !LessText(LastUsed(have), LastUsed(row)) {
      KeepsTransitive(best, have, m);
    }
    forall x | x in rows' && At(x, key, k)
      ensures AtMostText(LastUsed(x), LastUsed(m))
    {
      LessTextTotal(LastUsed(have), LastUsed(row), None);
      if x in rows {
        LessTextTotal(LastUsed(x), LastUsed(have), LastUsed(row));
      }
    }
  }

  lemma MergedFieldsOf(have: Json, rows: seq<Json>, row: Json, key: string -> string, k: string, m: Json)
    requires SpeaksFor(have, rows, key, k) && At(row, key, k)
    requires forall name :: Field(have, name).Some? || Field(row, name).Some? ==> Field(m, name).Some?
    requires forall name :: name != "path" && name != "genesis" && Field(m, name).Some? ==>
      Field(m, name) == Field(have, name) || Field(m, name) == Field(row, name)
    ensures FieldsOf(m, rows + [row], key, k)
  {
    var rows' := rows + [row];
    assert rows'[|rows|] == row;
    assert forall x <- rows :: x in rows';
    forall name | name != "path" && name != "genesis" && Field(m, name).Some?
      ensures exists x <- rows' :: At(x, key, k) && Field(x, name) == Field(m, name)
    {
      if Field(m, name) != Field(row, name) {
        var x :| x in rows && At(x, key, k) && Field(x, name) == Field(have, name);
        assert x in rows';
      }
    }
  }

  lemma ArriveInv(folded: seq<Json>, rows: seq<Json>, row: Json, key: string -> string)
    requires FoldInv(folded, rows, key) && forall r <- folded :: r.Obj?
    ensures FoldInv(Arrive(folded, row, key), rows + [row], key)
  {
    hide SpeaksFor, Merged;
    var folded', rows' := Arrive(folded, row, key), rows + [row];
    if Path(row).None? {
      forall r | r in folded
        ensures SpeaksFor(r, rows', key, Path(r).value)
      {
        SpeaksForFrame(r, rows, row, key, Path(r).value);
      }
    } else {
      var k := key(Path(row).value);
      IndexOfPathRight(folded, k);
      forall r | r in folded && Path(r) != Some(k)
        ensures SpeaksFor(r, rows', key, Path(r).value)
      {
        SpeaksForFrame(r, rows, row, key, Path(r).value);
      }
      match IndexOfPath(folded, k) {
        case None =>
          SpeaksForOne(row, rows, key, k);
          assert folded'[|folded|] == WithField(row, "path", Str(k));
          assert forall r <- folded :: r in folded';
        case Some(i) =>
          SpeaksForMerged(folded[i], rows, row, key, k);
          MergedFields(folded[i], row, k);
          assert folded'[i] == Merged(folded[i], row, k);
          assert forall j :: 0 <= j < |folded| ==> Path(folded'[j]) == Path(folded[j]);
          assert forall r <- folded :: exists r' <- folded' :: Path(r') == Path(r) by {
            forall r | r in folded
              ensures exists r' <- folded' :: Path(r') == Path(r)
            {
              var j :| 0 <= j < |folded| && folded[j] == r;
              assert folded'[j] in folded';
            }
          }
      }
    }
  }

  /** One row per resolved path, covering exactly the paths that came in; each row keeps all the fields of a row
      used last of those it replaces, keeps a genesis any of them had, and keeps every field any of them had. */
  lemma {:induction false} FoldKeeps(rows: seq<Json>, key: string -> string)
    ensures FoldInv(Folded(rows, key), rows, key)
  {
    if rows != [] {
      var init, last := rows[..|rows| - 1], rows[|rows| - 1];
      FoldKeeps(init, key);
      assert rows == init + [last];
      ArriveInv(Folded(init, key), init, last, key);
    }
  }

  lemma SpokenFor(r: Json, rows: seq<Json>, key: string -> string, k: string)
    requires SpeaksFor(r, rows, key, k)
    ensures exists row <- rows :: At(row, key, k)
  {
    var row :| row in rows && At(row, key, k) && LastUsed(row) == LastUsed(r) && Keeps(row, r);
  }

  /** Folding folded rows changes nothing, when resolving is idempotent on the paths at hand. */
  lemma FoldIdempotent(rows: seq<Json>, key: string -> string)
    requires forall row <- rows :: Path(row).Some? ==> key(key(Path(row).value)) == key(Path(row).value)
    ensures Folded(Folded(rows, key), key) == Folded(rows, key)
  {
    hide Folded, SpeaksFor;
    FoldKeeps(rows, key);
    var folded := Folded(rows, key);
    forall r | r in folded
      ensures Path(r).Some? && key(Path(r).value) == Path(r).value
    {
      SpokenFor(r, rows, key, Path(r).value);
    }
    FoldResolved(folded, key);
  }

  lemma {:induction false} FoldResolved(rows: seq<Json>, key: string -> string)
    requires forall r <- rows :: r.Obj? && Path(r).Some? && key(Path(r).value) == Path(r).value
    requires forall i, j :: 0 <= i < j < |rows| ==> Path(rows[i]) != Path(rows[j])
    ensures Folded(rows, key) == rows
  {
    if rows != [] {
      var init, last := rows[..|rows| - 1], rows[|rows| - 1];
      FoldedLast(rows, key);
      LastDiffers(rows);
      FoldResolved(init, key);
      hide Folded, IndexOfPath, Merged, Arrive, Path;
      assert last in rows;
      ArriveResolved(init, last, key);
      assert rows == init + [last];
    }
  }

  lemma FoldedLast(rows: seq<Json>, key: string -> string)
    requires rows != []
    ensures Folded(rows, key) == Arrive(Folded(rows[..|rows| - 1], key), rows[|rows| - 1], key)
  {
  }

  lemma LastDiffers(rows: seq<Json>)
    requires rows != [] && forall i, j :: 0 <= i < j < |rows| ==> Path(rows[i]) != Path(rows[j])
    requires forall r <- rows :: r.Obj?
    ensures forall r <- rows[..|rows| - 1] :: r in rows && r.Obj? && Path(r) != Path(rows[|rows| - 1])
  {
    hide Path;
  }

  lemma ArriveResolved(folded: seq<Json>, row: Json, key: string -> string)
    requires forall r <- folded :: r.Obj? && Path(r) != Path(row)
    requires Path(row).Some? && key(Path(row).value) == Path(row).value
    ensures Arrive(folded, row, key) == folded + [row]
  {
    IndexOfPathRight(folded, Path(row).value);
    PathAgain(row);
  }

  lemma PathAgain(row: Json)
    requires Path(row).Some?
    ensures row.Obj? && WithField(row, "path", Str(Path(row).value)) == row
  {
    assert row.fields["path" := Str(Path(row).value)] == row.fields;
  }

  /** `fold_same_directory`: drains the rows into a new list with an index of where each key stands. */
  method FoldSameDirectory(rows: seq<Json>, key: string -> string) returns (folded: seq<Json>)
    ensures folded == Folded(rows, key)
  {
    folded := [];
    var at: map<string, nat> := map[];
    assert rows[..0] == [];
    for n := 0 to |rows|
      invariant folded == Folded(rows[..n], key)
      invariant forall k :: match IndexOfPath(folded, k) case Some(i) => k in at && at[k] == i case None => k !in at
    {
      var row := rows[n];
      assert rows[..n + 1][..n] == rows[..n];
      ghost var before := folded;
      if Path(row).Some? {
        var k := key(Path(row).value);
        IndexOfPathRight(folded, k);
        if k !in at {
          at := at[k := |folded|];
          folded := folded + [WithField(row, "path", Str(k))];
          forall q
            ensures IndexOfPath(folded, q) == if q == k then Some(|before|) else IndexOfPath(before, q)
          {
            IndexOfPathPush(before, WithField(row, "path", Str(k)), q);
          }
        } else {
          folded := folded[at[k] := Merged(folded[at[k]], row, k)];
          MergedFields(before[at[k]], row, k);
          forall q
            ensures IndexOfPath(folded, q) == IndexOfPath(before, q)
          {
            IndexOfPathSame(before, folded, q);
          }
        }
      }
    }
    assert rows[..|rows|] == rows;
  }

  lemma {:induction false} IndexOfPathPush(rows: seq<Json>, row: Json, q: string)
    ensures IndexOfPath(rows + [row], q) ==
      match IndexOfPath(rows, q)
      case Some(i) => Some(i)
      case None => if Path(row) == Some(q) then Some(|rows|) else None
  {
    if rows == [] {
      assert rows + [row] == [row] && [row][1..] == [];
    } else {
      assert (rows + [row])[1..] == rows[1..] + [row];
      IndexOfPathPush(rows[1..], row, q);
    }
  }

  lemma {:induction false} IndexOfPathSame(a: seq<Json>, b: seq<Json>, q: string)
    requires |a| == |b| && forall i :: 0 <= i < |a| ==> Path(a[i]) == Path(b[i])
    ensures IndexOfPath(a, q) == IndexOfPath(b, q)
  {
    if a != [] {
      IndexOfPathSame(a[1..], b[1..], q);
    }
  }
}
