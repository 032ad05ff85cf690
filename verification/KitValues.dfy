/** The two readings of one frontmatter value (src/extraction.rs): the sidecar lines sync reads back
    (`flatten_yaml`, `one_line`) and the pairs validation judges (`push_kit_value`). */
module KitValues {
  import opened Wrappers
  import opened Text

  /** A parsed YAML value. A number carries how it prints, alone and as an f64 inside a list. */
  datatype Yaml =
    | Null
    | Bool(b: bool)
    | Number(shown: string, float: string)
    | Str(s: string)
    | Sequence(items: seq<Yaml>)
    | Mapping(entries: seq<(Yaml, Yaml)>)
    | Tagged(tag: string, inner: Yaml)

  /** The value under its tags: what `as_str`, `as_f64`, `as_bool` and `is_sequence` look at. */
  function Untagged(v: Yaml): Yaml {
    if v.Tagged? then Untagged(v.inner) else v
  }

  function ShowBool(b: bool): string {
    if b then "true" else "false"
  }

  // ----- one_line -----

  predicate IsBreak(c: char) {
    c == '\n' || c == '\r'
  }

  predicate HasBreak(s: string) {
    exists c <- s :: IsBreak(c)
  }

  function FirstBreak(s: string): (i: nat)
    requires HasBreak(s)
    ensures i < |s| && IsBreak(s[i]) && !HasBreak(s[..i])
  {
    if IsBreak(s[0]) then 0
    else
      assert s == [s[0]] + s[1..];
      var i := FirstBreak(s[1..]);
      assert s[..i + 1] == [s[0]] + s[1..][..i];
      i + 1
  }

  /** `split(['\n', '\r'])` */
  function SplitBreaks(s: string): (parts: seq<string>)
    ensures forall p <- parts :: !HasBreak(p)
    decreases |s|
  {
    if !HasBreak(s) then [s] else [s[..FirstBreak(s)]] + SplitBreaks(s[FirstBreak(s) + 1..])
  }

  function TrimmedParts(parts: seq<string>): seq<string> {
    if parts == [] then []
    else (if Trim(parts[0]) == "" then [] else [Trim(parts[0])]) + TrimmedParts(parts[1..])
  }

  function OneLine(s: string): string {
    if !HasBreak(s) then s else Join(TrimmedParts(SplitBreaks(s)), " ")
  }

  lemma NoBreakTrim(s: string)
    requires !HasBreak(s)
    ensures !HasBreak(Trim(s))
  {
    TrimContained(s);
    var i: nat :| OccursAt(s, Trim(s), i);
    assert forall c <- Trim(s) :: c in s;
  }

  lemma {:induction false} TrimmedPartsNoBreak(parts: seq<string>)
    requires forall p <- parts :: !HasBreak(p)
    ensures forall p <- TrimmedParts(parts) :: !HasBreak(p)
  {
    if parts != [] {
      TrimmedPartsNoBreak(parts[1..]);
      NoBreakTrim(parts[0]);
    }
  }

  lemma {:induction false} JoinNoBreak(parts: seq<string>)
    requires forall p <- parts :: !HasBreak(p)
    ensures !HasBreak(Join(parts, " "))
  {
    if |parts| > 1 {
      JoinNoBreak(parts[1..]);
      assert !HasBreak(parts[0]);
    } else if |parts| == 1 {
      assert !HasBreak(parts[0]);
    }
  }

  /** A rendered value is one physical line, and rendering a line changes nothing. */
  lemma OneLineIsOneLine(s: string)
    ensures !HasBreak(OneLine(s))
    ensures OneLine(OneLine(s)) == OneLine(s)
  {
    if HasBreak(s) {
      TrimmedPartsNoBreak(SplitBreaks(s));
      JoinNoBreak(TrimmedParts(SplitBreaks(s)));
    }
  }

  // ----- the sidecar reading -----

  const HAS_VALUE := " | hasValue | "

  function Line(key: string, text: string): string {
    key + HAS_VALUE + text
  }

  /** A list item that is text, a number or a truth value. */
  function ItemText(v: Yaml): Option<string> {
    match Untagged(v)
    case Str(s) => Some(s)
    case Number(_, float) => Some(float)
    case Bool(b) => Some(ShowBool(b))
    case _ => None
  }

  function ItemLines(key: string, items: seq<Yaml>): seq<string> {
    if items == [] then [] else ItemLines(key, items[..|items| - 1]) + ItemLine(key, items[|items| - 1])
  }

  function ItemLine(key: string, item: Yaml): seq<string> {
    match Untagged(item)
    case Str(s) => [Line(key, OneLine(s))]
    case Number(_, float) => [Line(key, float)]
    case Bool(b) => [Line(key, ShowBool(b))]
    case _ => []
  }

  function Flat(key: string, v: Yaml): seq<string>
    decreases v, if v.Mapping? then |v.entries| + 1 else 0
  {
    match v
    case Str(s) => [Line(key, OneLine(s))]
    case Sequence(items) => ItemLines(key, items)
    case Bool(b) => [Line(key, ShowBool(b))]
    case Number(shown, _) => [Line(key, shown)]
    case Mapping(entries) => FlatEntries(key, v, |entries|)
    case _ => []
  }

  /** The lines of a mapping's first `n` entries, under dotted keys. */
  function FlatEntries(key: string, v: Yaml, n: nat): seq<string>
    requires v.Mapping? && n <= |v.entries|
    decreases v, n
  {
    if n == 0 then []
    else
      FlatEntries(key, v, n - 1)
      + (match v.entries[n - 1].0 case Str(k) => Flat(key + "." + k, v.entries[n - 1].1) case _ => [])
  }

  /** A list's items, one line each. */
  method FlattenItems(key: string, items: seq<Yaml>, lines: seq<string>) returns (out: seq<string>)
    ensures out == lines + ItemLines(key, items)
  {
    out := lines;
    assert items[..0] == [];
    for i := 0 to |items|
      invariant out == lines + ItemLines(key, items[..i])
    {
      ItemLinesNext(lines, key, items, i);
      match Untagged(items[i])
      case Str(s) => out := out + [Line(key, OneLine(s))];
      case Number(_, float) => out := out + [Line(key, float)];
      case Bool(b) => out := out + [Line(key, ShowBool(b))];
      case _ =>
    }
    assert items[..|items|] == items;
  }

  /** `flatten_yaml`: lines are appended to the buffer it is given. */
  method FlattenYaml(key: string, v: Yaml, lines: seq<string>) returns (out: seq<string>)
    ensures out == lines + Flat(key, v)
    decreases v
  {
    out := lines;
    FlatCases(lines, key, v);
    match v
    case Str(s) => out := out + [Line(key, OneLine(s))];
    case Bool(b) => out := out + [Line(key, ShowBool(b))];
    case Number(shown, _) => out := out + [Line(key, shown)];
    case Sequence(items) => out := FlattenItems(key, items, lines);
    case Mapping(entries) =>
      for i := 0 to |entries|
        invariant out == lines + FlatEntries(key, v, i)
      {
        FlatEntriesNext(lines, key, v, i);
        match entries[i].0
        case Str(k) =>
          out := FlattenYaml(key + "." + k, entries[i].1, out);
        case _ =>
      }
    case _ =>
  }

  lemma FlatCases(lines: seq<string>, key: string, v: Yaml)
    ensures v.Str? ==> lines + Flat(key, v) == lines + [Line(key, OneLine(v.s))]
    ensures v.Bool? ==> lines + Flat(key, v) == lines + [Line(key, ShowBool(v.b))]
    ensures v.Number? ==> lines + Flat(key, v) == lines + [Line(key, v.shown)]
    ensures v.Sequence? ==> lines + Flat(key, v) == lines + ItemLines(key, v.items)
    ensures v.Mapping? ==> lines + Flat(key, v) == lines + FlatEntries(key, v, |v.entries|)
    ensures v.Mapping? ==> lines + FlatEntries(key, v, 0) == lines
    ensures v.Null? || v.Tagged? ==> lines + Flat(key, v) == lines
  {
    hide Line, OneLine, ItemLines;
    assert lines + [] == lines;
  }

  lemma ItemLinesNext(lines: seq<string>, key: string, items: seq<Yaml>, i: nat)
    requires i < |items|
    ensures lines + ItemLines(key, items[..i + 1]) == lines + ItemLines(key, items[..i]) + ItemLine(key, items[i])
    ensures lines + ItemLines(key, items[..i]) + [] == lines + ItemLines(key, items[..i])
  {
    hide ItemLine;
    assert items[..i + 1][..i] == items[..i];
  }

  lemma FlatEntriesNext(lines: seq<string>, key: string, v: Yaml, i: nat)
    requires v.Mapping? && i < |v.entries|
    ensures lines + FlatEntries(key, v, i + 1)
      == if v.entries[i].0.Str? then lines + FlatEntries(key, v, i) + Flat(key + "." + v.entries[i].0.s, v.entries[i].1)
         else lines + FlatEntries(key, v, i)
    ensures lines + FlatEntries(key, v, i) + [] == lines + FlatEntries(key, v, i)
  {
    hide Line, OneLine;
  }

  // ----- the validation reading -----

  /** `push_kit_value`: one value per pair, or the refusal of a shape the graph cannot hold. */
  function KitValuesOf(v: Yaml): Option<seq<string>> {
    match v
    case Str(s) => Some(if Trim(s) != "" then [s] else [])
    case Number(shown, _) => Some([shown])
    case Bool(b) => Some([ShowBool(b)])
    case Sequence(items) => ItemValues(items)
    case Null => Some([])
    case Mapping(_) => None
    case Tagged(_, _) => None
  }

  function ItemValues(items: seq<Yaml>): Option<seq<string>> {
    if items == [] then Some([])
    else match (ItemValues(items[..|items| - 1]), ItemText(items[|items| - 1]))
      case (Some(vals), Some(t)) => Some(vals + [t])
      case _ => None
  }

  lemma {:induction false} ItemValuesStop(items: seq<Yaml>, i: nat)
    requires i <= |items| && ItemValues(items[..i]).None?
    ensures ItemValues(items).None?
    decreases |items| - i
  {
    if i < |items| {
      assert items[..i + 1][..i] == items[..i];
      ItemValuesStop(items, i + 1);
    } else {
      assert items[..i] == items;
    }
  }

  method PushKitValue(v: Yaml, props: seq<string>) returns (out: Option<seq<string>>)
    ensures out == match KitValuesOf(v) case Some(vals) => Some(props + vals) case None => None
  {
    match v
    case Str(s) =>
      assert props + [] == props;
      return Some(if Trim(s) != "" then props + [s] else props);
    case Number(shown, _) => return Some(props + [shown]);
    case Bool(b) => return Some(props + [ShowBool(b)]);
    case Null =>
      assert props + [] == props;
      return Some(props);
    case Sequence(items) =>
      var vals := props;
      assert items[..0] == [] && props + [] == props;
      for i := 0 to |items|
        invariant ItemValues(items[..i]).Some? && vals == props + ItemValues(items[..i]).value
      {
        assert items[..i + 1][..i] == items[..i];
        if ItemText(items[i]).None? {
          ItemValuesStop(items, i + 1);
          return None;
        }
        vals := vals + [ItemText(items[i]).value];
      }
      assert items[..|items|] == items;
      return Some(vals);
    case Mapping(_) => return None;
    case Tagged(_, _) => return None;
  }

  // ----- reading sidecar lines back -----

  /** `splitn(3, " | ")`, when there are three parts. */
  function ThreeParts(line: string): Option<(string, string, string)> {
    match Find(line, " | ")
    case None => None
    case Some(i) =>
      if i + 3 > |line| then None else
      var rest := line[i + 3..];
      match Find(rest, " | ")
      case None => None
      case Some(j) => if j + 3 > |rest| then None else Some((line[..i], rest[..j], rest[j + 3..]))
  }

  /** The key is free of the separator, also where the separator that follows it begins. */
  predicate KeySafe(key: string) {
    Find(key + " | ", " | ") == Some(|key|)
  }

  /** A line gives back its key and its value exactly when the key is safe; the value may hold anything. */
  lemma LineReadsBack(key: string, text: string)
    ensures ThreeParts(Line(key, text)) == Some((key, "hasValue", text)) <==> KeySafe(key)
  {
    var line := Line(key, text);
    assert line == (key + " | ") + ("hasValue | " + text);
    assert OccursAt(key + " | ", " | ", |key|);
    FirstInPrefix(key + " | ", "hasValue | " + text);
    var i := Find(key + " | ", " | ").value;
    assert Find(line, " | ") == Some(i);
    if KeySafe(key) {
      var rest := "hasValue | " + text;
      assert line[|key| + 3..] == rest;
      HasValueFirst(text);
      assert line[..|key|] == key && rest[..8] == "hasValue" && rest[11..] == text;
    } else {
      assert i < |key|;
      assert |line[..i]| < |key|;
    }
  }

  lemma FirstInPrefix(a: string, b: string)
    requires Find(a, " | ").Some?
    ensures Find(a + b, " | ") == Find(a, " | ")
  {
    var s, i := a + b, Find(a, " | ").value;
    assert OccursAt(s, " | ", i) by {
      assert s[i..i + 3] == a[i..i + 3];
    }
    forall j: nat | j < i
      ensures !OccursAt(s, " | ", j)
    {
      assert s[j..j + 3] == a[j..j + 3];
      assert !OccursAt(a, " | ", j);
    }
    var k := Find(s, " | ").value;
    assert !(k < i) && !(i < k);
  }

  lemma HasValueFirst(text: string)
    ensures Find("hasValue | " + text, " | ") == Some(8)
  {
    var a := "hasValue | ";
    assert OccursAt(a, " | ", 8);
    forall j: nat | j < 8
      ensures !OccursAt(a, " | ", j)
    {
      assert a[j..j + 3][0] == a[j] != " | "[0];
    }
    assert Find(a, " | ") == Some(8);
    FirstInPrefix(a, text);
  }

  /** The objects a sidecar's lines carry, in order. */
  function Objects(lines: seq<string>): seq<string> {
    if lines == [] then []
    else
      Objects(lines[..|lines| - 1])
      + (match ThreeParts(lines[|lines| - 1]) case Some((_, _, text)) => [text] case None => [])
  }

  function NonBlank(texts: seq<string>): seq<string> {
    if texts == [] then []
    else NonBlank(texts[..|texts| - 1]) + (if Trim(texts[|texts| - 1]) == "" then [] else [texts[|texts| - 1]])
  }

  function OneLines(texts: seq<string>): seq<string> {
    if texts == [] then [] else OneLines(texts[..|texts| - 1]) + [OneLine(texts[|texts| - 1])]
  }

  /** Numbers print on one line. */
  predicate PlainNumbers(v: Yaml)
    decreases v
  {
    match v
    case Number(shown, float) => !HasBreak(shown) && !HasBreak(float)
    case Sequence(items) => forall i :: 0 <= i < |items| ==> PlainNumbers(items[i])
    case Tagged(_, inner) => PlainNumbers(inner)
    case _ => true
  }

  lemma PlainUntagged(v: Yaml)
    requires PlainNumbers(v)
    ensures PlainNumbers(Untagged(v))
  {
  }

  lemma OneObject(key: string, text: string)
    requires KeySafe(key)
    ensures Objects([Line(key, text)]) == [text]
  {
    LineReadsBack(key, text);
    assert [Line(key, text)][..0] == [];
  }

  lemma {:induction false} ItemsAgree(key: string, items: seq<Yaml>)
    requires KeySafe(key) && (forall i :: 0 <= i < |items| ==> PlainNumbers(items[i]))
    requires ItemValues(items).Some?
    ensures Objects(ItemLines(key, items)) == OneLines(ItemValues(items).value)
  {
    hide Line, OneLine, KeySafe, ThreeParts;
    if items != [] {
      var init, last := items[..|items| - 1], items[|items| - 1];
      ItemsAgree(key, init);
      PlainUntagged(last);
      var t := ItemText(last).value;
      var vals := ItemValues(items).value;
      assert vals[..|vals| - 1] == ItemValues(init).value;
      LineIsRendered(last);
      assert ItemLines(key, items) == ItemLines(key, init) + [Line(key, OneLine(t))];
      ObjectsPush(key, ItemLines(key, init), OneLine(t));
    }
  }

  lemma LineIsRendered(item: Yaml)
    requires PlainNumbers(Untagged(item)) && ItemText(item).Some?
    ensures !Untagged(item).Str? ==> OneLine(ItemText(item).value) == ItemText(item).value
  {
    assert !HasBreak("true") && !HasBreak("false");
  }

  lemma ObjectsPush(key: string, lines: seq<string>, text: string)
    requires KeySafe(key)
    ensures Objects(lines + [Line(key, text)]) == Objects(lines) + [text]
  {
    LineReadsBack(key, text);
    assert (lines + [Line(key, text)])[..|lines|] == lines;
  }

  /** Whenever validation accepts a value, the values it judges and the objects sync reads back from the
      sidecar are the same non-blank texts in the same order, up to rendering on one line. */
  lemma ReadingsAgree(key: string, v: Yaml)
    requires KeySafe(key) && PlainNumbers(v) && KitValuesOf(v).Some?
    ensures NonBlank(Objects(Flat(key, v))) == NonBlank(OneLines(KitValuesOf(v).value))
  {
    hide OneLine, KeySafe, ThreeParts;
    match v {
      case Sequence(items) => ItemsAgree(key, items);
      case Str(s) =>
        OneObject(key, OneLine(s));
        OneLinesOne(s);
        if Trim(s) == "" {
          BlankRenders(s);
          assert [OneLine(s)][..0] == [];
        }
      case Number(shown, _) =>
        OneObject(key, shown);
        OneLinesOne(shown);
        assert OneLine(shown) == shown by { KeptOnOneLine(shown); }
      case Bool(b) =>
        OneObject(key, ShowBool(b));
        OneLinesOne(ShowBool(b));
        assert !HasBreak("true") && !HasBreak("false");
        KeptOnOneLine(ShowBool(b));
      case Null =>
    }
  }

  lemma KeptOnOneLine(s: string)
    requires !HasBreak(s)
    ensures OneLine(s) == s
  {
  }

  lemma OneLinesOne(s: string)
    ensures OneLines([s]) == [OneLine(s)]
  {
    assert [s][..0] == [];
  }

  /** A blank value renders blank. */
  lemma BlankRenders(s: string)
    requires Trim(s) == ""
    ensures Trim(OneLine(s)) == ""
  {
    AllWhite(s);
    if HasBreak(s) {
      BlankParts(s);
    }
  }

  lemma {:induction false} BlankParts(s: string)
    requires forall c <- s :: IsWhite(c)
    ensures TrimmedParts(SplitBreaks(s)) == []
    decreases |s|
  {
    if HasBreak(s) {
      var i := FirstBreak(s);
      AllWhite(s[..i]);
      BlankParts(s[i + 1..]);
      assert SplitBreaks(s)[1..] == SplitBreaks(s[i + 1..]);
    } else {
      AllWhite(s);
      assert [s][1..] == [];
    }
  }

  /** A blank value carries nothing -- except inside a list, where a blank item is still a pair that
      satisfies a required property. */
  lemma BlankCarriesNothing(v: Yaml)
    requires KitValuesOf(v).Some? && !v.Number?
    ensures (forall t <- KitValuesOf(v).value :: Trim(t) != "") <==>
      !(v.Sequence? && exists i :: 0 <= i < |v.items| && Trim(ItemText(v.items[i]).GetOr("x")) == "")
  {
    assert IsTrimmed("true") && IsTrimmed("false");
    TrimIsTrimmed("true");
    TrimIsTrimmed("false");
    if v.Sequence? {
      ItemValuesAre(v.items);
    }
  }

  lemma {:induction false} ItemValuesAre(items: seq<Yaml>)
    requires ItemValues(items).Some?
    ensures |ItemValues(items).value| == |items|
    ensures forall i :: 0 <= i < |items| ==> ItemText(items[i]) == Some(ItemValues(items).value[i])
  {
    if items != [] {
      ItemValuesAre(items[..|items| - 1]);
    }
  }

  // ----- nested values -----

  /** The keys of `path` lead from `v` to `w`. */
  predicate Reaches(v: Yaml, path: seq<string>, w: Yaml)
    decreases |path|
  {
    if path == [] then v == w
    else v.Mapping? && exists e <- v.entries :: e.0 == Str(path[0]) && Reaches(e.1, path[1..], w)
  }

  function Dotted(key: string, path: seq<string>): string {
    Join([key] + path, ".")
  }

  lemma DottedNext(key: string, k: string, path: seq<string>)
    ensures Dotted(key + "." + k, path) == Dotted(key, [k] + path)
  {
    assert ([key] + ([k] + path))[1..] == [k] + path && ([key + "." + k] + path)[1..] == path;
    assert ([k] + path)[1..] == path;
    assert Join([key] + ([k] + path), ".") == key + "." + Join([k] + path, ".");
    if path == [] {
      assert [k] + path == [k] && [key + "." + k] + path == [key + "." + k];
    } else {
      assert key + "." + (k + "." + Join(path, ".")) == key + "." + k + "." + Join(path, ".");
    }
  }

  lemma {:induction false} EntryLines(key: string, v: Yaml, i: nat, n: nat)
    requires v.Mapping? && i < n <= |v.entries| && v.entries[i].0.Str?
    ensures forall l <- Flat(key + "." + v.entries[i].0.s, v.entries[i].1) :: l in FlatEntries(key, v, n)
  {
    hide Line, Flat;
    if i < n - 1 {
      EntryLines(key, v, i, n - 1);
    }
  }

  /** A value reached by a path of keys has its lines among the whole value's, under the keys joined by dots. */
  lemma {:induction false} ReachedHasLines(key: string, v: Yaml, path: seq<string>, w: Yaml)
    requires Reaches(v, path, w)
    ensures forall l <- Flat(Dotted(key, path), w) :: l in Flat(key, v)
    decreases |path|
  {
    hide Line;
    if path == [] {
      assert [key] + path == [key];
    } else {
      var e :| e in v.entries && e.0 == Str(path[0]) && Reaches(e.1, path[1..], w);
      var i :| 0 <= i < |v.entries| && v.entries[i] == e;
      ReachedHasLines(key + "." + path[0], e.1, path[1..], w);
      DottedNext(key, path[0], path[1..]);
      assert [path[0]] + path[1..] == path;
      EntryLines(key, v, i, |v.entries|);
    }
  }

  ghost predicate IsLineOf(l: string, key: string, v: Yaml, path: seq<string>, w: Yaml) {
    Reaches(v, path, w) && !w.Mapping? && l in Flat(Dotted(key, path), w)
  }

  lemma LineInEntry(key: string, v: Yaml, n: nat, l: string) returns (i: nat)
    requires v.Mapping? && n <= |v.entries| && l in FlatEntries(key, v, n)
    ensures i < n && v.entries[i].0.Str? && l in Flat(key + "." + v.entries[i].0.s, v.entries[i].1)
    decreases n
  {
    hide Line;
    if l in FlatEntries(key, v, n - 1) {
      i := LineInEntry(key, v, n - 1, l);
    } else {
      i := n - 1;
    }
  }

  /** There are no other lines: each comes from a value that is no mapping, under the path of keys that leads there. */
  lemma {:induction false} LinesAreReached(key: string, v: Yaml, l: string) returns (path: seq<string>, w: Yaml)
    requires l in Flat(key, v)
    ensures IsLineOf(l, key, v, path, w)
    decreases v
  {
    hide Line;
    if v.Mapping? {
      var i := LineInEntry(key, v, |v.entries|, l);
      var e := v.entries[i];
      var rest;
      rest, w := LinesAreReached(key + "." + e.0.s, e.1, l);
      path := [e.0.s] + rest;
      DottedNext(key, e.0.s, rest);
      assert path[1..] == rest && e in v.entries && e.0 == Str(path[0]);
    } else {
      path, w := [], v;
      assert [key] + path == [key];
    }
  }

  // ----- several lines on one -----

  /** A text as it stands at the end of a rendered one. */
  function RenderedRest(s: string): string {
    if HasBreak(s) then OneLine(s) else Trim(s)
  }

  /** A text of several lines is its lines, trimmed, with one space between those that are not blank. */
  lemma OneLineJoins(a: string, c: char, rest: string)
    requires !HasBreak(a) && IsBreak(c)
    ensures OneLine(a + [c] + rest) ==
      if Trim(a) == "" then RenderedRest(rest)
      else if RenderedRest(rest) == "" then Trim(a)
      else Trim(a) + " " + RenderedRest(rest)
  {
    hide Trim, FirstBreak, SplitBreaks;
    var s := a + [c] + rest;
    BreakSplits(a, c, rest);
    var parts := TrimmedParts(SplitBreaks(rest));
    assert TrimmedParts(SplitBreaks(s)) == (if Trim(a) == "" then [] else [Trim(a)]) + parts by {
      assert ([a] + SplitBreaks(rest))[1..] == SplitBreaks(rest);
    }
    RestIs(rest);
    if parts != [] {
      PartsNotBlank(SplitBreaks(rest));
      assert parts[0] in parts;
      JoinFirstPart(parts);
      if Trim(a) != "" {
        assert ([Trim(a)] + parts)[1..] == parts;
      }
    }
    assert [] + parts == parts && [Trim(a)] + [] == [Trim(a)];
  }

  lemma BreakSplits(a: string, c: char, rest: string)
    requires !HasBreak(a) && IsBreak(c)
    ensures HasBreak(a + [c] + rest) && SplitBreaks(a + [c] + rest) == [a] + SplitBreaks(rest)
  {
    var s := a + [c] + rest;
    assert s[|a|] == c && c in s;
    var i := FirstBreak(s);
    assert forall j :: 0 <= j < |a| ==> s[j] == a[j] && a[j] in a;
    assert i >= |a|;
    assert forall j :: |a| < j <= |s| ==> s[..j][|a|] == c && c in s[..j];
    assert i == |a| && s[..i] == a && s[i + 1..] == rest;
  }

  lemma RestIs(rest: string)
    ensures RenderedRest(rest) == Join(TrimmedParts(SplitBreaks(rest)), " ")
  {
    hide Trim;
    if !HasBreak(rest) {
      assert SplitBreaks(rest) == [rest] && [rest][1..] == [];
      assert TrimmedParts([rest]) == (if Trim(rest) == "" then [] else [Trim(rest)]) + TrimmedParts([]);
    }
  }

  lemma {:induction false} PartsNotBlank(parts: seq<string>)
    ensures forall p <- TrimmedParts(parts) :: p != ""
  {
    hide Trim;
    if parts != [] {
      PartsNotBlank(parts[1..]);
    }
  }

  lemma JoinFirstPart(parts: seq<string>)
    requires parts != [] && parts[0] != ""
    ensures Join(parts, " ") != ""
  {
  }

  /** How the values that are no text are written: a truth value as `true` or `false` everywhere; a number as it is
      shown when it stands alone, and by its floating-point value in a list. A tag is looked through in a list, and
      outside one makes sync drop the value and validation refuse it. */
  lemma ScalarTexts(key: string, b: bool, shown: string, float: string, tag: string)
    ensures var t, n := if b then "true" else "false", Number(shown, float);
      Flat(key, Bool(b)) == [key + " | hasValue | " + t]
      && Flat(key, Sequence([Bool(b)])) == [key + " | hasValue | " + t]
      && KitValuesOf(Bool(b)) == Some([t]) && KitValuesOf(Sequence([Bool(b)])) == Some([t])
      && Flat(key, n) == [key + " | hasValue | " + shown]
      && Flat(key, Sequence([n])) == [key + " | hasValue | " + float]
      && KitValuesOf(n) == Some([shown]) && KitValuesOf(Sequence([n])) == Some([float])
      && Flat(key, Sequence([Tagged(tag, n)])) == [key + " | hasValue | " + float] && Flat(key, Tagged(tag, n)) == []
      && KitValuesOf(Sequence([Tagged(tag, n)])) == Some([float]) && KitValuesOf(Tagged(tag, n)) == None
  {
    OneItem(key, Bool(b));
    OneItem(key, Number(shown, float));
    OneItem(key, Tagged(tag, Number(shown, float)));
  }

  lemma OneItem(key: string, item: Yaml)
    ensures Flat(key, Sequence([item])) == ItemLine(key, item)
    ensures KitValuesOf(Sequence([item])) == match ItemText(item) case Some(t) => Some([t]) case None => None
  {
    hide ItemLine, ItemText;
    assert [item][..|[item]| - 1] == [];
    assert ItemLines(key, []) == [] && ItemLines(key, [item]) == [] + ItemLine(key, item) == ItemLine(key, item);
    assert ItemValues([]) == Some([]);
    assert ItemText(item).Some? ==> [] + [ItemText(item).value] == [ItemText(item).value];
    assert ItemValues([item]) == match ItemText(item) case Some(t) => Some([t]) case None => None;
    assert Flat(key, Sequence([item])) == ItemLines(key, [item]);
  }
}
