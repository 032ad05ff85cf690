/** An authored ObjectProperty value as a list of value texts (`split_object_values`, src/nquad.rs). */
module References {
  import opened Wrappers
  import opened Text
  import opened PercentCoding

  // ----- list splitting -----

  predicate IsUrl(s: string) {
    StartsWith(s, "http://") || StartsWith(s, "https://")
  }

  function TrimAll(parts: seq<string>): seq<string> {
    if parts == [] then []
    else (if Trim(parts[0]) == "" then [] else [Trim(parts[0])]) + TrimAll(parts[1..])
  }

  /** Commas belong to the item in progress until a piece opens a new URL. */
  function UrlGroups(pieces: seq<string>, current: string): seq<string> {
    if pieces == [] then [current]
    else if current == "" then UrlGroups(pieces[1..], pieces[0])
    else if IsUrl(Trim(pieces[0])) then [current] + UrlGroups(pieces[1..], pieces[0])
    else UrlGroups(pieces[1..], current + "," + pieces[0])
  }

  function ObjectValues(value: string): seq<string> {
    if IsUrl(Trim(value)) then TrimAll(UrlGroups(Split(value, ','), ""))
    else TrimAll(Split(value, ','))
  }

  lemma {:induction false} TrimAllConcat(a: seq<string>, b: seq<string>)
    ensures TrimAll(a + b) == TrimAll(a) + TrimAll(b)
  {
    if a == [] {
      assert a + b == b;
    } else {
      assert (a + b)[1..] == a[1..] + b;
      TrimAllConcat(a[1..], b);
    }
  }

  lemma TrimAllOne(part: string)
    ensures TrimAll([part]) == if Trim(part) == "" then [] else [Trim(part)]
  {
    assert [part][1..] == [];
  }

  lemma TrimAllNext(parts: seq<string>, i: nat)
    requires i < |parts|
    ensures TrimAll(parts[i..]) == TrimAll([parts[i]]) + TrimAll(parts[i + 1..])
  {
    assert parts[i..] == [parts[i]] + parts[i + 1..];
    TrimAllConcat([parts[i]], parts[i + 1..]);
  }

  method SplitCommas(pieces: seq<string>) returns (items: seq<string>)
    ensures items == TrimAll(pieces)
  {
    items := [];
    assert pieces[0..] == pieces;
    for i := 0 to |pieces|
      invariant items + TrimAll(pieces[i..]) == TrimAll(pieces)
    {
      TrimAllNext(pieces, i);
      TrimAllOne(pieces[i]);
      Shift(items, TrimAll([pieces[i]]), TrimAll(pieces[i + 1..]));
      if Trim(pieces[i]) != "" {
        items := items + [Trim(pieces[i])];
      } else {
        assert items + [] == items;
      }
    }
    assert pieces[|pieces|..] == [] && items + [] == items;
  }

  lemma UrlGroupsNext(pieces: seq<string>, current: string, i: nat)
    requires i < |pieces|
    ensures TrimAll(UrlGroups(pieces[i..], current)) ==
      if current == "" then TrimAll(UrlGroups(pieces[i + 1..], pieces[i]))
      else if IsUrl(Trim(pieces[i])) then TrimAll([current]) + TrimAll(UrlGroups(pieces[i + 1..], pieces[i]))
      else TrimAll(UrlGroups(pieces[i + 1..], current + "," + pieces[i]))
  {
    assert pieces[i..][1..] == pieces[i + 1..];
    TrimAllConcat([current], UrlGroups(pieces[i + 1..], pieces[i]));
  }

  method SplitUrls(pieces: seq<string>) returns (items: seq<string>)
    ensures items == TrimAll(UrlGroups(pieces, ""))
  {
    items := [];
    var current := "";
    assert pieces[0..] == pieces;
    for i := 0 to |pieces|
      invariant items + TrimAll(UrlGroups(pieces[i..], current)) == TrimAll(UrlGroups(pieces, ""))
    {
      UrlGroupsNext(pieces, current, i);
      assert "" + pieces[i] == pieces[i];
      if IsUrl(Trim(pieces[i])) && current != "" {
        TrimAllOne(current);
        Shift(items, TrimAll([current]), TrimAll(UrlGroups(pieces[i + 1..], pieces[i])));
        if Trim(current) != "" {
          items := items + [Trim(current)];
        } else {
          assert items + [] == items;
        }
        current := "";
      }
      if current != "" {
        current := current + ",";
      }
      current := current + pieces[i];
    }
    assert pieces[|pieces|..] == [];
    TrimAllOne(current);
    if Trim(current) != "" {
      items := items + [Trim(current)];
    }
  }

  /** `split_object_values` */
  method SplitObjectValues(value: string) returns (items: seq<string>)
    ensures items == ObjectValues(value)
  {
    if IsUrl(Trim(value)) {
      items := SplitUrls(Split(value, ','));
    } else {
      items := SplitCommas(Split(value, ','));
    }
  }

  lemma {:induction false} TrimAllItems(parts: seq<string>)
    ensures forall v <- TrimAll(parts) :: v != "" && Trim(v) == v
  {
    if parts != [] {
      TrimAllItems(parts[1..]);
      TrimIsTrimmed(parts[0]);
    }
  }

  /** No value is blank, and none keeps white space at its ends. */
  lemma ObjectValuesTrimmed(value: string)
    ensures forall v <- ObjectValues(value) :: v != "" && Trim(v) == v
  {
    if IsUrl(Trim(value)) {
      TrimAllItems(UrlGroups(Split(value, ','), ""));
    } else {
      TrimAllItems(Split(value, ','));
    }
  }

  lemma {:induction false} UrlGroupsRejoin(pieces: seq<string>, current: string)
    requires current != ""
    ensures Join(UrlGroups(pieces, current), ",") == if pieces == [] then current else current + "," + Join(pieces, ",")
    ensures UrlGroups(pieces, current) != []
  {
    if pieces != [] {
      var p, rest := pieces[0], pieces[1..];
      JoinFirst(p, rest);
      assert pieces == [p] + rest;
      if IsUrl(Trim(p)) {
        TrimmedUrlNotEmpty(p);
        UrlGroupsRejoin(rest, p);
        assert UrlGroups(pieces, current) == [current] + UrlGroups(rest, p);
        hide UrlGroups, Join, IsUrl, Trim;
        JoinFirst(current, UrlGroups(rest, p));
      } else {
        UrlGroupsRejoin(rest, current + "," + p);
        assert UrlGroups(pieces, current) == UrlGroups(rest, current + "," + p);
        hide UrlGroups, Join, IsUrl, Trim;
        assert current + "," + p + "," + Join(rest, ",") == current + "," + (p + "," + Join(rest, ","));
      }
    }
  }

  lemma JoinFirst(p: string, rest: seq<string>)
    ensures Join([p] + rest, ",") == if rest == [] then p else p + "," + Join(rest, ",")
  {
    assert ([p] + rest)[1..] == rest;
  }

  lemma TrimmedUrlNotEmpty(p: string)
    requires IsUrl(Trim(p))
    ensures p != ""
  {
  }

  /** Grouping the pieces of a URL list loses nothing: the groups, joined again, are the authored text. */
  lemma UrlListKeepsText(value: string)
    requires IsUrl(Trim(value))
    ensures Join(UrlGroups(Split(value, ','), ""), ",") == value
  {
    var pieces := Split(value, ',');
    FirstPieceOpensUrl(value);
    TrimmedUrlNotEmpty(pieces[0]);
    UrlGroupsRejoin(pieces[1..], pieces[0]);
    JoinSplit(value, ',');
  }

  lemma {:induction false} GroupStarts(pieces: seq<string>, current: string)
    requires current != ""
    ensures UrlGroups(pieces, current) != [] && current <= UrlGroups(pieces, current)[0]
    ensures forall g <- UrlGroups(pieces, current)[1..] :: exists p <- pieces :: IsUrl(Trim(p)) && p <= g
  {
    if pieces != [] {
      var p, rest := pieces[0], pieces[1..];
      assert forall q <- rest :: q in pieces;
      if IsUrl(Trim(p)) {
        TrimmedUrlNotEmpty(p);
        GroupStarts(rest, p);
        assert UrlGroups(pieces, current)[1..] == UrlGroups(rest, p);
        assert p in pieces;
        forall g | g in UrlGroups(rest, p)
          ensures exists q <- pieces :: IsUrl(Trim(q)) && q <= g
        {
          if g in UrlGroups(rest, p)[1..] {
            var q :| q in rest && IsUrl(Trim(q)) && q <= g;
            assert q in pieces;
          }
        }
      } else {
        GroupStarts(rest, current + "," + p);
        forall g | g in UrlGroups(pieces, current)[1..]
          ensures exists q <- pieces :: IsUrl(Trim(q)) && q <= g
        {
          var q :| q in rest && IsUrl(Trim(q)) && q <= g;
          assert q in pieces;
        }
      }
    }
  }

  lemma {:induction false} TrimStartExtends(p: string, g: string)
    requires p <= g && TrimStart(p) != ""
    ensures TrimStart(p) <= TrimStart(g)
  {
    if IsWhite(p[0]) {
      TrimStartExtends(p[1..], g[1..]);
    }
  }

  lemma UrlSurvivesTrimEnd(s: string)
    requires IsUrl(s)
    ensures IsUrl(TrimEnd(s))
  {
    TrimEndShape(s);
    var n := if StartsWith(s, "http://") then 7 else 8;
    assert s[n - 1] == '/' && !IsWhite(s[n - 1]);
    assert TrimEnd(s)[..n] == s[..n];
  }

  /** Text after a URL does not make it less of one. */
  lemma UrlExtends(p: string, g: string)
    requires IsUrl(Trim(p)) && p <= g
    ensures IsUrl(Trim(g))
  {
    TrimEndShape(TrimStart(p));
    assert IsUrl(TrimStart(p));
    TrimStartExtends(p, g);
    assert IsUrl(TrimStart(g));
    UrlSurvivesTrimEnd(TrimStart(g));
  }

  lemma FirstPieceOpensUrl(value: string)
    requires IsUrl(Trim(value))
    ensures IsUrl(Trim(Split(value, ',')[0]))
  {
    var k, n := UrlAt(value);
    if ',' in value {
      var i := IndexOf(value, ',');
      SplitStep(value, ',');
      assert Split(value, ',')[0] == value[..i];
      hide Split, IndexOf, Trim, IsUrl;
      NoCommaBefore(value, k, n, i);
      UrlInPiece(value, k, n, i);
    } else {
      NothingToSplit(value, ',');
    }
  }

  /** Where the text's URL opens, and how long its scheme is. */
  lemma UrlAt(value: string) returns (k: nat, n: nat)
    requires IsUrl(Trim(value))
    ensures (n == 7 || n == 8) && k + n <= |value| && value[k..k + n] == (if n == 7 then "http://" else "https://")
    ensures forall j :: 0 <= j < k ==> IsWhite(value[j])
  {
    TrimStartShape(value);
    TrimEndShape(TrimStart(value));
    k := |value| - |TrimStart(value)|;
    n := if StartsWith(Trim(value), "http://") then 7 else 8;
    hide TrimStart, TrimEnd;
    var t := Trim(value);
    assert t[..n] == (if n == 7 then "http://" else "https://");
    assert TrimStart(value)[..n] == t[..n];
    assert value[k..][..n] == value[k..k + n];
  }

  lemma NoCommaBefore(value: string, k: nat, n: nat, i: nat)
    requires (n == 7 || n == 8) && k + n <= |value| && value[k..k + n] == (if n == 7 then "http://" else "https://")
    requires forall j :: 0 <= j < k ==> IsWhite(value[j])
    requires i < |value| && value[i] == ','
    ensures i >= k + n
  {
    assert !IsWhite(',');
    assert forall j :: k <= j < k + n ==> value[j] == value[k..k + n][j - k];
    assert ',' !in "http://" && ',' !in "https://";
  }

  lemma UrlInPiece(value: string, k: nat, n: nat, i: nat)
    requires k + n <= i <= |value| && (n == 7 || n == 8)
    requires forall j :: 0 <= j < k ==> IsWhite(value[j])
    requires value[k..k + n] == (if n == 7 then "http://" else "https://")
    ensures IsUrl(Trim(value[..i]))
  {
    TrimLeadingWhite(value[..i], k);
    assert value[..i][k..][..n] == value[k..k + n];
    assert IsUrl(value[..i][k..]);
    UrlSurvivesTrimEnd(value[..i][k..]);
  }

  lemma {:induction false} TrimLeadingWhite(s: string, k: nat)
    requires k < |s| && (forall j :: 0 <= j < k ==> IsWhite(s[j])) && !IsWhite(s[k])
    ensures TrimStart(s) == s[k..]
  {
    if k > 0 {
      TrimLeadingWhite(s[1..], k - 1);
      assert s[1..][k - 1..] == s[k..];
    }
  }

  lemma UrlGroupsAreUrls(value: string)
    requires IsUrl(Trim(value))
    ensures forall g <- UrlGroups(Split(value, ','), "") :: IsUrl(Trim(g))
  {
    var pieces := Split(value, ',');
    FirstPieceOpensUrl(value);
    TrimmedUrlNotEmpty(pieces[0]);
    GroupStarts(pieces[1..], pieces[0]);
    var groups := UrlGroups(pieces, "");
    forall g | g in groups
      ensures IsUrl(Trim(g))
    {
      if g == groups[0] {
        UrlExtends(pieces[0], g);
      } else {
        assert g in groups[1..];
        var p :| p in pieces[1..] && IsUrl(Trim(p)) && p <= g;
        UrlExtends(p, g);
      }
    }
  }

  /** In a URL list every value is a URL: a comma is a separator only before `http(s)://`. */
  lemma UrlListHoldsUrls(value: string)
    requires IsUrl(Trim(value))
    ensures forall v <- ObjectValues(value) :: IsUrl(v)
  {
    UrlGroupsAreUrls(value);
    TrimAllUrls(UrlGroups(Split(value, ','), ""));
  }

  lemma TrimAllUrls(parts: seq<string>)
    requires forall g <- parts :: IsUrl(Trim(g))
    ensures forall v <- TrimAll(parts) :: IsUrl(v)
  {
  }

  // ----- texts that are one value -----

  /** No comma separates anything in it: none at all, or in a URL none that another URL follows. */
  predicate IsOneValue(value: string) {
    if IsUrl(value) then forall p <- Split(value, ',')[1..] :: !IsUrl(Trim(p)) else ',' !in value
  }

  lemma {:induction false} GroupCount(pieces: seq<string>, current: string)
    requires current != ""
    ensures |UrlGroups(pieces, current)| == 1 <==> forall p <- pieces :: !IsUrl(Trim(p))
    ensures |UrlGroups(pieces, current)| >= 1
  {
    if pieces != [] {
      var p, rest := pieces[0], pieces[1..];
      assert pieces == [p] + rest;
      if IsUrl(Trim(p)) {
        TrimmedUrlNotEmpty(p);
        GroupCount(rest, p);
      } else {
        GroupCount(rest, current + "," + p);
      }
    }
  }

  lemma {:induction false} TrimAllKeeps(parts: seq<string>)
    requires forall p <- parts :: Trim(p) != ""
    ensures |TrimAll(parts)| == |parts|
  {
    if parts != [] {
      TrimAllKeeps(parts[1..]);
    }
  }

  lemma {:induction false} TrimAllNoComma(parts: seq<string>)
    requires forall p <- parts :: ',' !in p
    ensures forall v <- TrimAll(parts) :: ',' !in v
  {
    if parts != [] {
      TrimAllNoComma(parts[1..]);
      TrimContained(parts[0]);
      var i: nat :| OccursAt(parts[0], Trim(parts[0]), i);
      assert forall c <- Trim(parts[0]) :: c in parts[0];
    }
  }

  lemma UrlOneValueIff(value: string)
    requires IsUrl(value) && Trim(value) == value
    ensures ObjectValues(value) == [value] <==> IsOneValue(value)
  {
    hide Split, IsUrl, Trim, UrlGroups, TrimAll;
    var pieces := Split(value, ',');
    var groups := UrlGroups(pieces, "");
    FirstPieceOpensUrl(value);
    TrimmedUrlNotEmpty(pieces[0]);
    assert groups == UrlGroups(pieces[1..], pieces[0]) by { FirstGroup(pieces); }
    GroupCount(pieces[1..], pieces[0]);
    UrlGroupsAreUrls(value);
    assert forall g <- groups :: Trim(g) != "" by { NoBlankUrl(); }
    TrimAllKeeps(groups);
    if |groups| == 1 {
      UrlListKeepsText(value);
      assert groups == [groups[0]] && Join(groups, ",") == groups[0];
      TrimAllOne(value);
    }
  }

  lemma FirstGroup(pieces: seq<string>)
    requires pieces != []
    ensures UrlGroups(pieces, "") == UrlGroups(pieces[1..], pieces[0])
  {
  }

  lemma NoBlankUrl()
    ensures !IsUrl("")
  {
  }

  /** The splitter leaves a trimmed text whole exactly when it is one value. */
  lemma OneValueIff(value: string)
    requires value != "" && Trim(value) == value
    ensures ObjectValues(value) == [value] <==> IsOneValue(value)
  {
    if IsUrl(value) {
      UrlOneValueIff(value);
    } else if ',' in value {
      SplitPieces(value, ',');
      TrimAllNoComma(Split(value, ','));
      assert value in [value];
    } else {
      NothingToSplit(value, ',');
      TrimAllOne(value);
    }
  }

  /** A text without white space that does not begin like a URL. */
  lemma NoSpaces(s: string)
    requires s != "" && s[0] != 'h' && !IsWhite(s[0]) && !IsWhite(s[|s| - 1])
    ensures Trim(s) == s && !IsUrl(s)
  {
    TrimmedStays(s);
  }

  // ----- texts that are some value -----

  lemma {:induction false} TrimAllHolds(parts: seq<string>, p: string)
    requires p in parts && Trim(p) != ""
    ensures TrimAll(parts) != []
  {
    if parts[0] != p {
      TrimAllHolds(parts[1..], p);
    }
  }

  lemma {:induction false} InPiece(s: string, sep: char, i: nat)
    requires i < |s| && s[i] != sep
    ensures exists p <- Split(s, sep) :: s[i] in p
    decreases |s|
  {
    if sep !in s {
      NothingToSplit(s, sep);
      assert s in Split(s, sep) && s[i] in s;
    } else {
      SplitStep(s, sep);
      var cut := IndexOf(s, sep);
      assert s[..cut] in Split(s, sep);
      if i < cut {
        assert s[i] in s[..cut];
      } else {
        InPiece(s[cut + 1..], sep, i - cut - 1);
        var p :| p in Split(s[cut + 1..], sep) && s[i] in p;
        assert p in Split(s, sep);
      }
    }
  }

  /** A text with anything in it but commas and white space is at least one value. */
  lemma SomeValue(value: string, i: nat)
    requires i < |value| && value[i] != ',' && !IsWhite(value[i])
    ensures ObjectValues(value) != []
  {
    hide Split, Trim, IsUrl;
    if IsUrl(Trim(value)) {
      UrlGroupsAreUrls(value);
      var groups := UrlGroups(Split(value, ','), "");
      FirstPieceOpensUrl(value);
      FirstGroup(Split(value, ','));
      TrimmedUrlNotEmpty(Split(value, ',')[0]);
      GroupCount(Split(value, ',')[1..], Split(value, ',')[0]);
      NoBlankUrl();
      TrimAllHolds(groups, groups[0]);
    } else {
      InPiece(value, ',', i);
      var p :| p in Split(value, ',') && value[i] in p;
      AllWhite(p);
      TrimAllHolds(Split(value, ','), p);
    }
  }

  /** A comma in a URL parts two values exactly when another URL follows it. */
  lemma CommaInUrl(scheme: string, a: string, b: string)
    requires scheme == "http://" || scheme == "https://"
    requires ',' !in a && ',' !in b && IsTrimmed(scheme + a + "," + b)
    ensures ObjectValues(scheme + a + "," + b) == [scheme + a + "," + b]
      <==> !StartsWith(Trim(b), "http://") && !StartsWith(Trim(b), "https://")
  {
    hide Trim, Split;
    var value := scheme + a + "," + b;
    TrimmedStays(value);
    assert IsUrl(value);
    OneValueIff(value);
    SplitFirst(scheme + a, ',', b);
    assert value == scheme + a + [','] + b;
    NothingToSplit(b, ',');
    assert ([scheme + a] + [b])[1..] == [b];
  }
}
