/** The two lists of `repo.yml` as the kit commands edit them (src/kit.rs) and as the repository's own
    facts are read from them (src/git2_nquads.rs). */
module RepoYml {
  import opened Wrappers
  import opened Text

  // ----- the reader -----

  predicate IsSkipped(t: string) {
    t == "" || StartsWith(t, "#")
  }

  /** The key a line opens, once it is neither skipped nor an item. */
  function KeyOf(t: string): Option<string> {
    if ':' in t then Some(Trim(t[..IndexOf(t, ':')])) else None
  }

  function ReadItem(t: string): seq<string> {
    if |t| >= 2 && TrimMatches(Trim(t[2..]), '"') != "" then [TrimMatches(Trim(t[2..]), '"')] else []
  }

  /** Whether the list is open after a line. */
  function Open(line: string, open: bool, key: string): bool {
    var t := Trim(line);
    if IsSkipped(t) || StartsWith(t, "- ") || KeyOf(t).None? then open else KeyOf(t).value == key
  }

  function LineItem(line: string, open: bool): seq<string> {
    var t := Trim(line);
    if !IsSkipped(t) && StartsWith(t, "- ") && open then ReadItem(t) else []
  }

  function Read(lines: seq<string>, open: bool, key: string): seq<string> {
    if lines == [] then [] else LineItem(lines[0], open) + Read(lines[1..], Open(lines[0], open, key), key)
  }

  function OpenAfter(lines: seq<string>, open: bool, key: string): bool {
    if lines == [] then open else OpenAfter(lines[1..], Open(lines[0], open, key), key)
  }

  /** The part of the emitter's loop that reads one list. */
  method ReadList(content: string, key: string) returns (items: seq<string>)
    ensures items == Read(Lines(content), false, key)
  {
    items := [];
    var open := false;
    var lines := Lines(content);
    assert lines[0..] == lines;
    for i := 0 to |lines|
      invariant items + Read(lines[i..], open, key) == Read(lines, false, key)
    {
      ReadStep(items, lines, i, open, key);
      var t := Trim(lines[i]);
      if IsSkipped(t) {
        continue;
      }
      if StartsWith(t, "- ") {
        if open {
          items := items + ReadItem(t);
        }
        continue;
      }
      match KeyOf(t) {
        case None =>
        case Some(k) => open := k == key;
      }
    }
    assert lines[|lines|..] == [] && items + [] == items;
  }

  lemma ReadStep(items: seq<string>, lines: seq<string>, i: nat, open: bool, key: string)
    requires i < |lines|
    ensures items + Read(lines[i..], open, key)
      == items + LineItem(lines[i], open) + Read(lines[i + 1..], Open(lines[i], open, key), key)
    ensures items + [] == items
  {
    hide LineItem, Open;
    assert lines[i..][1..] == lines[i + 1..];
  }

  // ----- appending -----

  predicate IsKeyLine(line: string, key: string) {
    StartsWith(Trim(line), key + ":")
  }

  predicate IsDash(line: string) {
    StartsWith(Trim(line), "-")
  }

  predicate IsBlank(line: string) {
    Trim(line) == ""
  }

  function FirstKey(lines: seq<string>, key: string): Option<nat> {
    if lines == [] then None
    else if IsKeyLine(lines[0], key) then Some(0)
    else match FirstKey(lines[1..], key) case Some(i) => Some(i + 1) case None => None
  }

  /** Just past the last item that follows, counted from the line after the key. */
  function PastItems(lines: seq<string>): (n: nat)
    ensures n <= |lines|
  {
    if lines == [] then 0
    else if IsDash(lines[0]) then 1 + PastItems(lines[1..])
    else if IsBlank(lines[0]) then (if PastItems(lines[1..]) == 0 then 0 else 1 + PastItems(lines[1..]))
    else 0
  }

  function ItemLine(item: string): string {
    "  - " + item
  }

  function Appended(lines: seq<string>, key: string, item: string): seq<string> {
    match FirstKey(lines, key)
    case Some(i) =>
      if i >= |lines| then lines
      else
        var at := i + 1 + PastItems(lines[i + 1..]);
        lines[..at] + [ItemLine(item)] + lines[at..]
    case None =>
      lines + (if lines != [] && lines[|lines| - 1] != "" then [""] else []) + [key + ":", ItemLine(item)]
  }

  /** The text written back: lines joined, and a final newline unless there is one. */
  function Finished(lines: seq<string>): string {
    var text := Join(lines, "\n");
    if EndsWith(text, "\n") then text else text + "\n"
  }

  lemma FirstKeyBound(lines: seq<string>, key: string)
    ensures FirstKey(lines, key).Some? ==> FirstKey(lines, key).value < |lines|
  {
  }

  /** `append_repo_yml_list_item`: None when the item is there already and nothing is written. */
  method AppendItem(existing: string, current: seq<string>, key: string, item: string) returns (text: Option<string>)
    ensures text == if item in current then None else Some(Finished(Appended(Lines(existing), key, item)))
  {
    if item in current {
      return None;
    }
    var lines := Lines(existing);
    var found := FindKey(lines, key);
    FirstKeyBound(lines, key);
    match found {
      case Some(i) =>
        var at := InsertionPoint(lines, i + 1);
        AppendedInList(lines, key, item, i);
        lines := lines[..at] + [ItemLine(item)] + lines[at..];
      case None =>
        AppendedAtEnd(lines, key, item);
        if lines != [] && lines[|lines| - 1] != "" {
          lines := lines + [""];
        }
        lines := lines + [key + ":"];
        lines := lines + [ItemLine(item)];
    }
    return Some(Finished(lines));
  }

  lemma AppendedInList(lines: seq<string>, key: string, item: string, i: nat)
    requires FirstKey(lines, key) == Some(i) && i < |lines|
    ensures var at := i + 1 + PastItems(lines[i + 1..]);
      Appended(lines, key, item) == lines[..at] + [ItemLine(item)] + lines[at..]
  {
    hide ItemLine, FirstKey, PastItems;
  }

  lemma AppendedAtEnd(lines: seq<string>, key: string, item: string)
    requires FirstKey(lines, key).None?
    ensures Appended(lines, key, item)
      == (if lines != [] && lines[|lines| - 1] != "" then lines + [""] else lines) + [key + ":"] + [ItemLine(item)]
  {
    hide ItemLine, FirstKey;
    assert lines + [] == lines;
    Regroup(if lines != [] && lines[|lines| - 1] != "" then lines + [""] else lines, [key + ":"], [ItemLine(item)]);
    assert [key + ":"] + [ItemLine(item)] == [key + ":", ItemLine(item)];
  }

  method FindKey(lines: seq<string>, key: string) returns (found: Option<nat>)
    ensures found == FirstKey(lines, key)
  {
    assert lines[0..] == lines;
    for i := 0 to |lines|
      invariant match FirstKey(lines[i..], key)
        case Some(k) => FirstKey(lines, key) == Some(k + i)
        case None => FirstKey(lines, key) == None
    {
      assert lines[i..][1..] == lines[i + 1..];
      if IsKeyLine(lines[i], key) {
        return Some(i);
      }
    }
    return None;
  }

  method InsertionPoint(lines: seq<string>, from: nat) returns (at: nat)
    requires from <= |lines|
    ensures at == from + PastItems(lines[from..])
  {
    at := from;
    for i := from to |lines|
      invariant from <= at <= i
      invariant from + PastItems(lines[from..]) == if PastItems(lines[i..]) == 0 then at else i + PastItems(lines[i..])
    {
      assert lines[i..][1..] == lines[i + 1..];
      if IsDash(lines[i]) {
        at := i + 1;
      } else if IsBlank(lines[i]) {
        continue;
      } else {
        return;
      }
    }
  }

  // ----- removing -----

  /** The remover's state: output, in the list or not, the key line held back until an item is kept. */
  datatype Removal = Removal(out: seq<string>, inList: bool, pending: Option<string>, remaining: nat)

  function ParsedItem(line: string): string {
    var t := Trim(line);
    if t == "" then "" else TrimMatches(TrimMatches(Trim(t[1..]), '"'), '\'')
  }

  function PopBlank(out: seq<string>): seq<string> {
    if out != [] && IsBlank(out[|out| - 1]) then out[..|out| - 1] else out
  }

  function Held(pending: Option<string>): seq<string> {
    match pending case Some(l) => [l] case None => []
  }

  function RemovalStep(s: Removal, line: string, key: string, item: string): Removal {
    if IsKeyLine(line, key) then Removal(s.out, true, Some(line), 0)
    else if !s.inList then s.(out := s.out + [line])
    else if IsDash(line) then
      if ParsedItem(line) == item then s
      else Removal(s.out + Held(s.pending) + [line], true, None, s.remaining + 1)
    else if IsBlank(line) then (if s.pending.None? then s.(out := s.out + [line]) else s)
    else Removal((if s.pending.Some? then PopBlank(s.out) else s.out) + [line], false, None, s.remaining)
  }

  function RemovalRun(s: Removal, lines: seq<string>, key: string, item: string): Removal
    decreases |lines|
  {
    if lines == [] then s else RemovalRun(RemovalStep(s, lines[0], key, item), lines[1..], key, item)
  }

  function RemovalEnd(s: Removal): seq<string> {
    if s.inList && s.pending.Some? && s.remaining == 0 then PopBlank(s.out) else s.out
  }

  function Removed(lines: seq<string>, key: string, item: string): seq<string> {
    RemovalEnd(RemovalRun(Removal([], false, None, 0), lines, key, item))
  }

  /** One line of the removal loop. */
  method RemoveLine(s: Removal, line: string, key: string, item: string) returns (next: Removal)
    ensures next == RemovalStep(s, line, key, item)
  {
    var out, inList, pending, remaining := s.out, s.inList, s.pending, s.remaining;
    if IsKeyLine(line, key) {
      inList, pending, remaining := true, Some(line), 0;
    } else if !inList {
      out := out + [line];
    } else if IsDash(line) {
      if ParsedItem(line) != item {
        if pending.Some? {
          out, pending := out + [pending.value], None;
        } else {
          assert out + [] == out;
        }
        out, remaining := out + [line], remaining + 1;
      }
    } else if IsBlank(line) {
      if pending.None? {
        out := out + [line];
      }
    } else {
      inList := false;
      if pending.Some? {
        pending := None;
        if out != [] && IsBlank(out[|out| - 1]) {
          out := out[..|out| - 1];
        }
      }
      out := out + [line];
    }
    next := Removal(out, inList, pending, remaining);
  }

  /** `remove_repo_yml_list_item` on the file's text. */
  method RemoveItem(existing: string, key: string, item: string) returns (text: string)
    ensures text == Finished(Removed(Lines(existing), key, item))
  {
    var lines := Lines(existing);
    var start := Removal([], false, None, 0);
    var s := start;
    assert lines[0..] == lines;
    for i := 0 to |lines|
      invariant RemovalRun(s, lines[i..], key, item) == RemovalRun(start, lines, key, item)
    {
      RunStep(s, lines, i, key, item);
      s := RemoveLine(s, lines[i], key, item);
    }
    assert lines[|lines|..] == [];
    var out := s.out;
    if s.inList && s.pending.Some? && s.remaining == 0 && out != [] && IsBlank(out[|out| - 1]) {
      out := out[..|out| - 1];
    }
    text := Finished(out);
  }

  lemma RunStep(s: Removal, lines: seq<string>, i: nat, key: string, item: string)
    requires i < |lines|
    ensures RemovalRun(s, lines[i..], key, item)
      == RemovalRun(RemovalStep(s, lines[i], key, item), lines[i + 1..], key, item)
  {
    hide RemovalStep;
    assert lines[i..][1..] == lines[i + 1..];
  }

  // ----- block-style files -----

  /** A plain item: no quotes or spaces around it. */
  predicate IsPlain(x: string) {
    x != "" && !IsWhite(x[0]) && !IsWhite(x[|x| - 1]) && x[0] !in {'"', '\''} && x[|x| - 1] !in {'"', '\''}
  }

  predicate IsItemOf(line: string, x: string) {
    Trim(line) == "- " + x && IsPlain(x)
  }

  /** A list's lines: items and blank lines. */
  predicate IsBody(body: seq<string>) {
    forall l <- body :: IsBlank(l) || (StartsWith(Trim(l), "- ") && IsPlain(Trim(l)[2..]))
  }

  function Items(body: seq<string>): seq<string> {
    if body == [] then []
    else (if IsBlank(body[0]) || |Trim(body[0])| < 2 then [] else [Trim(body[0])[2..]]) + Items(body[1..])
  }

  predicate IsKey(key: string) {
    key != "" && ':' !in key && IsTrimmed(key) && key[0] !in {'-', '#'}
  }

  /** Lines that have nothing to do with the list: no line opens it, and none is read as an item of it. */
  predicate Elsewhere(lines: seq<string>, key: string) {
    (forall l <- lines :: !IsKeyLine(l, key)) && Read(lines, true, key) == []
  }

  /** A file in block style: the key alone on its line, its items under it, and then something else. A comment
      may follow the items, but no item follows the comment. */
  predicate IsBlock(before: seq<string>, keyLine: string, body: seq<string>, rest: seq<string>, key: string) {
    IsKey(key) && Trim(keyLine) == key + ":" && IsBody(body) && Elsewhere(before, key) && Elsewhere(rest, key)
    && (rest != [] ==> !IsBlank(rest[0]) && !IsDash(rest[0]))
  }

  lemma {:induction false} ReadConcat(a: seq<string>, b: seq<string>, open: bool, key: string)
    ensures Read(a + b, open, key) == Read(a, open, key) + Read(b, OpenAfter(a, open, key), key)
    ensures OpenAfter(a + b, open, key) == OpenAfter(b, OpenAfter(a, open, key), key)
  {
    hide LineItem, Open;
    if a == [] {
      assert a + b == b;
    } else {
      assert (a + b)[1..] == a[1..] + b;
      ReadConcat(a[1..], b, Open(a[0], open, key), key);
    }
  }

  /** A list that yields nothing while open yields nothing at all. */
  lemma {:induction false} NothingEitherWay(lines: seq<string>, open: bool, key: string)
    requires Read(lines, true, key) == []
    ensures Read(lines, open, key) == []
  {
    hide Trim, KeyOf, ReadItem;
    if lines != [] && !open && Open(lines[0], true, key) {
      NothingEitherWay(lines[1..], Open(lines[0], false, key), key);
    }
  }

  lemma KeyAlone(keyLine: string, key: string)
    requires Trim(keyLine) == key + ":"
    ensures IsKeyLine(keyLine, key)
  {
  }

  lemma KeyLineOpens(keyLine: string, open: bool, key: string)
    requires IsKey(key) && IsKeyLine(keyLine, key)
    ensures Open(keyLine, open, key) && LineItem(keyLine, open) == []
    ensures !IsBlank(keyLine) && !IsDash(keyLine)
  {
    var t := Trim(keyLine);
    assert t[|key|] == ':' && t[..|key|] == key && t[0] == key[0];
    IndexOfUnique(t, ':', |key|);
    TrimmedStays(key);
  }

  lemma ItemReads(line: string, x: string, key: string)
    requires IsItemOf(line, x)
    ensures Open(line, true, key) && LineItem(line, true) == [x]
    ensures IsDash(line) && !IsBlank(line) && ParsedItem(line) == x
  {
    var t := Trim(line);
    assert t[0] == '-' && t[1] == ' ' && t[2..] == x;
    TrimmedStays(x);
    assert t[1..] == " " + x;
    LeadingSpace(x);
    assert TrimMatches(x, '"') == x && TrimMatches(x, '\'') == x;
  }

  lemma LeadingSpace(x: string)
    requires IsPlain(x)
    ensures Trim(" " + x) == x
  {
    assert (" " + x)[1..] == x;
    assert TrimStart(x) == x;
  }

  lemma ItemLineIsItem(x: string)
    requires IsPlain(x)
    ensures IsItemOf(ItemLine(x), x)
  {
    var s := ItemLine(x);
    assert s[1..] == " - " + x && s[1..][1..] == "- " + x;
    assert TrimStart("- " + x) == "- " + x;
    var t := "- " + x;
    assert t[|t| - 1] == x[|x| - 1];
    assert TrimEnd(t) == t;
    assert TrimStart(s) == TrimStart(s[1..]) == TrimStart(s[1..][1..]);
  }

  lemma BlankReads(line: string, open: bool, key: string)
    requires IsBlank(line)
    ensures Open(line, open, key) == open && LineItem(line, open) == [] && !IsDash(line)
  {
  }

  lemma {:induction false} BodyReads(body: seq<string>, key: string)
    requires IsBody(body)
    ensures Read(body, true, key) == Items(body) && OpenAfter(body, true, key)
  {
    hide Trim, IsPlain, LineItem, Open;
    if body != [] {
      BodyLine(body);
      if IsBlank(body[0]) {
        BlankReads(body[0], true, key);
      } else {
        ItemReads(body[0], Trim(body[0])[2..], key);
      }
      BodyReads(body[1..], key);
    }
  }

  lemma BodyLine(body: seq<string>)
    requires body != [] && IsBody(body)
    ensures IsBody(body[1..]) && (IsBlank(body[0]) || (|Trim(body[0])| >= 2 && IsItemOf(body[0], Trim(body[0])[2..])))
  {
    assert body[0] in body;
    var t := Trim(body[0]);
    if !IsBlank(body[0]) {
      assert t == t[..2] + t[2..];
    }
  }

  /** Of a file with one list only the lines under the key are read. */
  lemma UnderKey(before: seq<string>, keyLine: string, body: seq<string>, rest: seq<string>, key: string)
    requires IsKey(key) && IsKeyLine(keyLine, key) && Elsewhere(before, key) && Elsewhere(rest, key)
    ensures Read(before + ([keyLine] + (body + rest)), false, key) == Read(body, true, key)
  {
    hide Trim, Read, IsKeyLine, IsKey, LineItem, Open, OpenAfter;
    KeyLineOpens(keyLine, OpenAfter(before, false, key), key);
    ReadConcat(before, [keyLine] + (body + rest), false, key);
    ReadFirst(keyLine, body + rest, OpenAfter(before, false, key), key);
    ReadConcat(body, rest, true, key);
    NothingEitherWay(before, false, key);
    NothingEitherWay(rest, OpenAfter(body, true, key), key);
    assert [] + ([] + (Read(body, true, key) + [])) == Read(body, true, key);
  }

  /** The list a block-style file holds. */
  lemma BlockReads(before: seq<string>, keyLine: string, body: seq<string>, rest: seq<string>, key: string)
    requires IsBlock(before, keyLine, body, rest, key)
    ensures Read(before + ([keyLine] + (body + rest)), false, key) == Items(body)
  {
    hide Trim, IsBody, Read, Elsewhere;
    KeyAlone(keyLine, key);
    UnderKey(before, keyLine, body, rest, key);
    BodyReads(body, key);
  }

  lemma ReadFirst(line: string, lines: seq<string>, open: bool, key: string)
    ensures Read([line] + lines, open, key) == LineItem(line, open) + Read(lines, Open(line, open, key), key)
  {
    assert ([line] + lines)[1..] == lines;
  }

  // ----- appending reads back -----

  lemma {:induction false} FirstKeyAt(before: seq<string>, keyLine: string, tail: seq<string>, key: string)
    requires (forall l <- before :: !IsKeyLine(l, key)) && IsKeyLine(keyLine, key)
    ensures FirstKey(before + ([keyLine] + tail), key) == Some(|before|)
  {
    hide IsKeyLine;
    var lines := before + ([keyLine] + tail);
    if before == [] {
      assert lines == [keyLine] + tail;
    } else {
      assert before[0] in before;
      assert lines[1..] == before[1..] + ([keyLine] + tail);
      FirstKeyAt(before[1..], keyLine, tail, key);
    }
  }

  lemma {:induction false} PastBody(body: seq<string>, rest: seq<string>)
    requires IsBody(body) && (rest != [] ==> !IsBlank(rest[0]) && !IsDash(rest[0]))
    ensures var n := PastItems(body + rest); n <= |body| && Items(body[n..]) == []
  {
    hide Trim, IsPlain, IsBody, IsBlank, IsDash, Items, PastItems;
    if body == [] {
      assert body + rest == rest;
      NoneToPass(rest);
    } else {
      BodyLine(body);
      PastBody(body[1..], rest);
      BodyDash(body[0]);
      assert (body + rest)[1..] == body[1..] + rest;
      PastFirst(body + rest);
      var n, m := PastItems(body + rest), PastItems(body[1..] + rest);
      if n == 0 {
        ItemsBlankFirst(body);
        assert body[1..][0..] == body[1..] && body[0..] == body;
      } else {
        assert body[n..] == body[1..][m..];
      }
    }
  }

  lemma NoneToPass(rest: seq<string>)
    requires rest != [] ==> !IsBlank(rest[0]) && !IsDash(rest[0])
    ensures PastItems(rest) == 0 && Items([]) == []
  {
  }

  lemma PastFirst(lines: seq<string>)
    requires lines != [] && (IsDash(lines[0]) <==> !IsBlank(lines[0]))
    ensures var n, m := PastItems(lines), PastItems(lines[1..]);
      if n == 0 then IsBlank(lines[0]) && m == 0 else n == m + 1
  {
    hide IsBlank, IsDash;
  }

  lemma ItemsBlankFirst(body: seq<string>)
    requires body != [] && IsBlank(body[0])
    ensures Items(body) == Items(body[1..])
  {
    hide Trim;
  }

  lemma BodyDash(line: string)
    requires !IsBlank(line) ==> |Trim(line)| >= 2 && IsItemOf(line, Trim(line)[2..])
    ensures IsDash(line) <==> !IsBlank(line)
  {
  }

  lemma BodySplits(body: seq<string>, n: nat)
    requires IsBody(body) && n <= |body| && Items(body[n..]) == []
    ensures IsBody(body[..n]) && IsBody(body[n..]) && Items(body[..n]) == Items(body)
  {
    hide Trim, IsPlain, Items;
    assert body == body[..n] + body[n..];
    ItemsConcat(body[..n], body[n..]);
  }

  /** Appending puts one line into the file, after the list's last item, and the list reads as before with the
      new item once at the end. */
  lemma AppendReads(before: seq<string>, keyLine: string, body: seq<string>, rest: seq<string>, key: string,
                    item: string)
    requires IsBlock(before, keyLine, body, rest, key) && IsPlain(item)
    ensures var lines := before + ([keyLine] + (body + rest));
      Read(Appended(lines, key, item), false, key) == Read(lines, false, key) + [item]
      && exists at :: |before| < at <= |before| + 1 + |body|
           && Appended(lines, key, item) == lines[..at] + [ItemLine(item)] + lines[at..]
  {
    hide Trim, IsBody, Read, IsPlain, IsKeyLine, Items, Appended, PastItems, IsBlank, IsDash, IsKey;
    KeyAlone(keyLine, key);
    KeyLineOpens(keyLine, false, key);
    var lines := before + ([keyLine] + (body + rest));
    BlockReads(before, keyLine, body, rest, key);
    PastBody(body, rest);
    var n := PastItems(body + rest);
    var at := |before| + 1 + n;
    var now := body[..n] + [ItemLine(item)] + body[n..];
    AppendedAt(before, keyLine, body, rest, key, item);
    BodySplits(body, n);
    ItemLineIsItem(item);
    InsertedBody(body[..n], item, body[n..]);
    BlockReads(before, keyLine, now, rest, key);
    NoItemsAfter(Items(body[..n]), item, Items(body[n..]));
  }

  lemma NoItemsAfter(a: seq<string>, item: string, b: seq<string>)
    requires b == []
    ensures a + [item] + b == a + [item]
  {
  }

  lemma AppendedAt(before: seq<string>, keyLine: string, body: seq<string>, rest: seq<string>, key: string,
                   item: string)
    requires IsKeyLine(keyLine, key) && (forall l <- before :: !IsKeyLine(l, key)) && PastItems(body + rest) <= |body|
    ensures var lines := before + ([keyLine] + (body + rest));
      var n := PastItems(body + rest);
      var at := |before| + 1 + n;
      Appended(lines, key, item) == lines[..at] + [ItemLine(item)] + lines[at..]
      && Appended(lines, key, item) == before + ([keyLine] + ((body[..n] + [ItemLine(item)] + body[n..]) + rest))
  {
    hide IsKeyLine, PastItems, FirstKey, ItemLine, Appended;
    var lines := before + ([keyLine] + (body + rest));
    FirstKeyAt(before, keyLine, body + rest, key);
    AppendedInList(lines, key, item, |before|);
    assert lines[|before| + 1..] == body + rest;
    CutBlock(before, keyLine, body, rest, ItemLine(item), PastItems(body + rest));
  }

  lemma CutBlock(before: seq<string>, keyLine: string, body: seq<string>, rest: seq<string>, line: string, n: nat)
    requires n <= |body|
    ensures var lines := before + ([keyLine] + (body + rest));
      var at := |before| + 1 + n;
      lines[..at] + [line] + lines[at..] == before + ([keyLine] + ((body[..n] + [line] + body[n..]) + rest))
  {
    var lines := before + ([keyLine] + (body + rest));
    var at := |before| + 1 + n;
    assert lines[..at] == before + ([keyLine] + body[..n]);
    assert lines[at..] == body[n..] + rest;
  }

  lemma InsertedBody(a: seq<string>, item: string, b: seq<string>)
    requires IsBody(a) && IsBody(b) && IsItemOf(ItemLine(item), item)
    ensures IsBody(a + [ItemLine(item)] + b) && Items(a + [ItemLine(item)] + b) == Items(a) + [item] + Items(b)
  {
    hide IsPlain, Trim;
    var l := ItemLine(item);
    assert Trim(l)[2..] == item && Trim(l) != "";
    ItemsConcat(a + [l], b);
    ItemsConcat(a, [l]);
    assert Items([l]) == [item];
  }

  lemma {:induction false} ItemsConcat(a: seq<string>, b: seq<string>)
    ensures Items(a + b) == Items(a) + Items(b)
  {
    hide Trim, IsBlank;
    if a == [] {
      assert a + b == b;
    } else {
      assert (a + b)[1..] == a[1..] + b;
      ItemsConcat(a[1..], b);
    }
  }

  /** With no list there, the key and the item go to the end of the file. */
  lemma AppendToMissing(lines: seq<string>, key: string, item: string)
    requires IsKey(key) && Elsewhere(lines, key) && IsPlain(item)
    ensures Read(Appended(lines, key, item), false, key) == [item] && lines <= Appended(lines, key, item)
  {
    hide Trim, Read, IsPlain, IsKeyLine;
    NoFirstKey(lines, key);
    var gap: seq<string> := if lines != [] && lines[|lines| - 1] != "" then [""] else [];
    var before := lines + gap;
    KeyIsTrimmed(key);
    ItemLineIsItem(item);
    GapElsewhere(lines, gap, key);
    assert Appended(lines, key, item) == before + ([key + ":"] + ([ItemLine(item)] + []));
    assert IsBody([ItemLine(item)]) by {
      NoBody();
      InsertedBody([], item, []);
      assert [] + [ItemLine(item)] + [] == [ItemLine(item)];
    }
    assert Elsewhere([], key) by { NothingElsewhere(key); }
    BlockReads(before, key + ":", [ItemLine(item)], [], key);
    assert Items([ItemLine(item)]) == [item] by {
      assert Trim(ItemLine(item))[2..] == item && Trim(ItemLine(item)) != "";
    }
  }

  lemma NoBody()
    ensures IsBody([])
  {
  }

  lemma NothingElsewhere(key: string)
    ensures Elsewhere([], key)
  {
  }

  lemma {:induction false} NoFirstKey(lines: seq<string>, key: string)
    requires forall l <- lines :: !IsKeyLine(l, key)
    ensures FirstKey(lines, key).None?
  {
    hide IsKeyLine;
    if lines != [] {
      assert lines[0] in lines;
      NoFirstKey(lines[1..], key);
    }
  }

  lemma KeyIsTrimmed(key: string)
    requires IsKey(key)
    ensures Trim(key + ":") == key + ":"
  {
    TrimmedStays(key + ":");
  }

  lemma GapElsewhere(lines: seq<string>, gap: seq<string>, key: string)
    requires IsKey(key) && Elsewhere(lines, key) && (gap == [] || gap == [""])
    ensures Elsewhere(lines + gap, key)
  {
    hide Trim;
    assert Trim("") == "" by { EmptyTrim(); }
    ReadConcat(lines, gap, true, key);
    if gap == [] {
      assert lines + gap == lines;
    } else {
      BlankReads("", OpenAfter(lines, true, key), key);
      assert [""][1..] == [];
    }
  }

  lemma EmptyTrim()
    ensures Trim("") == ""
  {
  }

  // ----- removing reads back -----

  function Without(items: seq<string>, item: string): seq<string> {
    if items == [] then [] else (if items[0] == item then [] else [items[0]]) + Without(items[1..], item)
  }

  /** The body without the item's lines; before the first kept item blank lines go too. */
  function KeptBody(body: seq<string>, item: string, started: bool): seq<string> {
    if body == [] then []
    else if IsDash(body[0]) then
      if ParsedItem(body[0]) == item then KeptBody(body[1..], item, started)
      else [body[0]] + KeptBody(body[1..], item, true)
    else (if started then [body[0]] else []) + KeptBody(body[1..], item, started)
  }

  lemma {:induction false} RunConcat(s: Removal, a: seq<string>, b: seq<string>, key: string, item: string)
    ensures RemovalRun(s, a + b, key, item) == RemovalRun(RemovalRun(s, a, key, item), b, key, item)
    decreases |a|
  {
    hide RemovalStep;
    if a == [] {
      assert a + b == b;
    } else {
      assert (a + b)[1..] == a[1..] + b;
      RunConcat(RemovalStep(s, a[0], key, item), a[1..], b, key, item);
    }
  }

  lemma {:induction false} RunOutside(s: Removal, lines: seq<string>, key: string, item: string)
    requires !s.inList && forall l <- lines :: !IsKeyLine(l, key)
    ensures RemovalRun(s, lines, key, item) == s.(out := s.out + lines)
    decreases |lines|
  {
    hide IsKeyLine;
    if lines == [] {
      assert s.out + [] == s.out;
    } else {
      assert lines[0] in lines;
      RunOutside(s.(out := s.out + [lines[0]]), lines[1..], key, item);
      assert s.out + [lines[0]] + lines[1..] == s.out + lines;
    }
  }

  /** What the remover has done after the list's own lines: the key line is held back until an item is kept. */
  predicate BodyDone(s: Removal, body: seq<string>, e: Removal, item: string) {
    e.inList && e.remaining == s.remaining + |Without(Items(body), item)|
    && (if s.pending.None? || Without(Items(body), item) != []
        then e.out == s.out + Held(s.pending) + KeptBody(body, item, s.pending.None?) && e.pending.None?
        else e.out == s.out && e.pending == s.pending)
  }

  lemma {:induction false} RunBody(s: Removal, body: seq<string>, key: string, item: string)
    requires IsKey(key) && IsBody(body) && s.inList
    ensures BodyDone(s, body, RemovalRun(s, body, key, item), item)
    decreases |body|
  {
    hide Trim, IsPlain, ParsedItem, IsKeyLine, IsKey;
    if body == [] {
      assert s.out + Held(s.pending) + [] == s.out + Held(s.pending);
    } else {
      BodyLine(body);
      BodyDash(body[0]);
      BodyNotKey(body[0], key);
      var next := RemovalStep(s, body[0], key, item);
      RunBody(next, body[1..], key, item);
      var e := RemovalRun(next, body[1..], key, item);
      assert RemovalRun(s, body, key, item) == e;
      if IsBlank(body[0]) {
        BlankStep(s, body, next, e, key, item);
      } else {
        ItemReads(body[0], Trim(body[0])[2..], key);
        ItemStep(s, body, next, e, key, item);
      }
    }
  }

  lemma BodyNotKey(line: string, key: string)
    requires IsKey(key) && (IsBlank(line) || IsDash(line))
    ensures !IsKeyLine(line, key)
  {
    assert (key + ":")[0] == key[0];
  }

  lemma BlankStep(s: Removal, body: seq<string>, next: Removal, e: Removal, key: string, item: string)
    requires body != [] && IsBlank(body[0]) && !IsDash(body[0]) && !IsKeyLine(body[0], key) && s.inList
    requires next == RemovalStep(s, body[0], key, item) && BodyDone(next, body[1..], e, item)
    ensures BodyDone(s, body, e, item)
  {
    hide IsBlank, IsDash, IsKeyLine, ParsedItem, Without;
    assert Items(body) == [] + Items(body[1..]) == Items(body[1..]);
    var kept := KeptBody(body[1..], item, s.pending.None?);
    if s.pending.None? {
      assert KeptBody(body, item, true) == [body[0]] + kept;
      assert s.out + [] + ([body[0]] + kept) == (s.out + [body[0]]) + [] + kept;
    } else {
      assert KeptBody(body, item, false) == [] + kept == kept;
    }
  }

  lemma ItemStep(s: Removal, body: seq<string>, next: Removal, e: Removal, key: string, item: string)
    requires body != [] && !IsBlank(body[0]) && IsDash(body[0]) && !IsKeyLine(body[0], key) && s.inList
    requires |Trim(body[0])| >= 2 && ParsedItem(body[0]) == Trim(body[0])[2..]
    requires next == RemovalStep(s, body[0], key, item) && BodyDone(next, body[1..], e, item)
    ensures BodyDone(s, body, e, item)
  {
    hide IsBlank, IsDash, IsKeyLine, ParsedItem, Trim;
    var x, rest := ParsedItem(body[0]), Items(body[1..]);
    assert Items(body) == [x] + rest;
    assert ([x] + rest)[1..] == rest;
    assert [] + Without(rest, item) == Without(rest, item);
    if x == item {
      assert Without(Items(body), item) == Without(rest, item);
    } else {
      assert Without(Items(body), item) == [x] + Without(rest, item);
      var kept := KeptBody(body[1..], item, true);
      assert s.out + Held(s.pending) + ([body[0]] + kept) == (s.out + Held(s.pending) + [body[0]]) + [] + kept;
    }
  }

  lemma {:induction false} KeptBodyReads(body: seq<string>, item: string, started: bool)
    requires IsBody(body)
    ensures IsBody(KeptBody(body, item, started)) && Items(KeptBody(body, item, started)) == Without(Items(body), item)
  {
    hide Trim, IsPlain, ParsedItem;
    if body != [] {
      BodyLine(body);
      BodyDash(body[0]);
      KeptBodyReads(body[1..], item, started);
      KeptBodyReads(body[1..], item, true);
      if IsBlank(body[0]) {
        var kept := KeptBody(body[1..], item, started);
        assert ([body[0]] + kept)[1..] == kept;
        assert [] + kept == kept;
        assert Items(body) == [] + Items(body[1..]) == Items(body[1..]);
      } else {
        ItemReads(body[0], Trim(body[0])[2..], "");
        KeptItem(body, item);
      }
    }
  }

  lemma KeptItem(body: seq<string>, item: string)
    requires body != [] && !IsBlank(body[0]) && |Trim(body[0])| >= 2
    ensures var x := Trim(body[0])[2..];
      Without(Items(body), item) == (if x == item then [] else [x]) + Without(Items(body[1..]), item)
    ensures forall kept :: Items([body[0]] + kept) == [Trim(body[0])[2..]] + Items(kept)
  {
    hide Trim, IsBlank;
    var x, rest := Trim(body[0])[2..], Items(body[1..]);
    assert Items(body) == [x] + rest;
    assert ([x] + rest)[1..] == rest;
    forall kept
      ensures Items([body[0]] + kept) == [x] + Items(kept)
    {
      assert ([body[0]] + kept)[1..] == kept;
    }
  }

  /** The file after a removal: the other lines in order, the list without the item -- and when nothing is left
      of the list, without its key, and without one blank line that stood before it. */
  function RemovedFile(before: seq<string>, keyLine: string, body: seq<string>, rest: seq<string>,
                       item: string): seq<string> {
    if Without(Items(body), item) != [] then before + ([keyLine] + (KeptBody(body, item, false) + rest))
    else PopBlank(before) + rest
  }

  lemma RemovedIs(before: seq<string>, keyLine: string, body: seq<string>, rest: seq<string>, key: string, item: string)
    requires IsBlock(before, keyLine, body, rest, key)
    ensures Removed(before + ([keyLine] + (body + rest)), key, item) == RemovedFile(before, keyLine, body, rest, item)
  {
    hide Trim, IsBody, Read, RemovalStep, RemovalRun, IsKeyLine, KeptBody, IsBlank, IsDash, Items, Without, IsKey;
    var s0 := Removal([], false, None, 0);
    var s1 := Removal(before, false, None, 0);
    var s2 := Removal(before, true, Some(keyLine), 0);
    RunConcat(s0, before, [keyLine] + (body + rest), key, item);
    RunOutside(s0, before, key, item);
    assert [] + before == before;
    KeyAlone(keyLine, key);
    KeyLineOpens(keyLine, false, key);
    RunKey(s1, keyLine, body + rest, key, item);
    RunConcat(s2, body, rest, key, item);
    RunBody(s2, body, key, item);
    RunRest(RemovalRun(s2, body, key, item), rest, key, item);
    Associate(before, [keyLine], KeptBody(body, item, false), rest);
    if rest == [] {
      assert PopBlank(before) + rest == PopBlank(before);
      assert before + [keyLine] + KeptBody(body, item, false) + rest
        == before + [keyLine] + KeptBody(body, item, false);
    }
  }

  lemma Associate<T>(a: seq<T>, b: seq<T>, c: seq<T>, d: seq<T>)
    ensures a + b + c + d == a + (b + (c + d))
  {
  }

  lemma RunKey(s: Removal, keyLine: string, lines: seq<string>, key: string, item: string)
    requires IsKeyLine(keyLine, key)
    ensures RemovalRun(s, [keyLine] + lines, key, item)
      == RemovalRun(Removal(s.out, true, Some(keyLine), 0), lines, key, item)
  {
    assert ([keyLine] + lines)[1..] == lines;
  }

  /** The line that ends the list, and everything after it. */
  lemma RunRest(e: Removal, rest: seq<string>, key: string, item: string)
    requires e.inList && (forall l <- rest :: !IsKeyLine(l, key))
      && (rest != [] ==> !IsBlank(rest[0]) && !IsDash(rest[0]))
    requires e.pending.Some? ==> e.remaining == 0
    ensures RemovalEnd(RemovalRun(e, rest, key, item)) == (if e.pending.Some? then PopBlank(e.out) else e.out) + rest
  {
    hide IsKeyLine, IsBlank, IsDash, ParsedItem, PopBlank;
    var out := if e.pending.Some? then PopBlank(e.out) else e.out;
    if rest == [] {
      assert out + rest == out;
    } else {
      assert rest[0] in rest;
      var next := RemovalStep(e, rest[0], key, item);
      assert next == Removal(out + [rest[0]], false, None, e.remaining);
      RunOutside(next, rest[1..], key, item);
      assert out + [rest[0]] + rest[1..] == out + rest;
    }
  }

  /** Removing an item: the list reads without it, and nothing else changes (see `RemovedFile`). */
  lemma RemoveReads(before: seq<string>, keyLine: string, body: seq<string>, rest: seq<string>, key: string,
                    item: string)
    requires IsBlock(before, keyLine, body, rest, key)
    ensures var lines := before + ([keyLine] + (body + rest));
      Read(Removed(lines, key, item), false, key) == Without(Read(lines, false, key), item)
  {
    hide Trim, IsBody, Read, Removed, KeptBody, IsBlank, IsDash, Items, Without, IsKeyLine;
    RemovedIs(before, keyLine, body, rest, key, item);
    BlockReads(before, keyLine, body, rest, key);
    KeptBodyReads(body, item, false);
    if Without(Items(body), item) != [] {
      BlockReads(before, keyLine, KeptBody(body, item, false), rest, key);
    } else {
      PoppedReads(before, key);
      ReadConcat(PopBlank(before), rest, false, key);
      NothingEitherWay(PopBlank(before), false, key);
      NothingEitherWay(rest, OpenAfter(PopBlank(before), false, key), key);
    }
  }

  lemma PoppedReads(before: seq<string>, key: string)
    requires Read(before, true, key) == []
    ensures Read(PopBlank(before), true, key) == []
  {
    if PopBlank(before) != before {
      var last := before[|before| - 1];
      assert before == PopBlank(before) + [last];
      ReadConcat(PopBlank(before), [last], true, key);
      hide Read, PopBlank, OpenAfter;
      assert |Read(PopBlank(before), true, key)| <= |Read(before, true, key)|;
    }
  }

  /** An emptied list loses its key. */
  lemma EmptiedLosesKey(before: seq<string>, keyLine: string, body: seq<string>, rest: seq<string>, key: string,
                        item: string)
    requires IsBlock(before, keyLine, body, rest, key) && Without(Items(body), item) == []
    ensures var now := Removed(before + ([keyLine] + (body + rest)), key, item);
      now == PopBlank(before) + rest && forall l <- now :: !IsKeyLine(l, key)
  {
    hide Trim, IsBody, Read, Removed, IsBlank, IsDash, Items, Without, IsKeyLine;
    RemovedIs(before, keyLine, body, rest, key, item);
    assert forall l <- PopBlank(before) :: l in before;
  }

  /** Removing again changes nothing. */
  lemma RemoveTwice(before: seq<string>, keyLine: string, body: seq<string>, rest: seq<string>, key: string,
                    item: string)
    requires IsBlock(before, keyLine, body, rest, key)
    ensures var now := Removed(before + ([keyLine] + (body + rest)), key, item); Removed(now, key, item) == now
  {
    hide Trim, IsBody, Read, KeptBody, IsBlank, IsDash, Items, Without, IsKeyLine, RemovalRun, RemovalStep, IsKey;
    RemovedIs(before, keyLine, body, rest, key, item);
    if Without(Items(body), item) != [] {
      var kept := KeptBody(body, item, false);
      KeptBodyReads(body, item, false);
      RemovedIs(before, keyLine, kept, rest, key, item);
      WithoutTwice(Items(body), item);
      KeptTwice(body, item, false);
    } else {
      var now := PopBlank(before) + rest;
      assert forall l <- PopBlank(before) :: l in before;
      RunOutside(Removal([], false, None, 0), now, key, item);
      assert [] + now == now;
    }
  }

  lemma {:induction false} WithoutTwice(items: seq<string>, item: string)
    ensures Without(Without(items, item), item) == Without(items, item)
  {
    if items != [] {
      WithoutTwice(items[1..], item);
      var rest := Without(items[1..], item);
      assert ([items[0]] + rest)[1..] == rest && [] + rest == rest;
    }
  }

  lemma {:induction false} KeptTwice(body: seq<string>, item: string, started: bool)
    ensures KeptBody(KeptBody(body, item, started), item, started) == KeptBody(body, item, started)
  {
    hide IsDash, ParsedItem;
    if body != [] {
      KeptTwice(body[1..], item, started);
      KeptTwice(body[1..], item, true);
      var k1, k2 := KeptBody(body[1..], item, started), KeptBody(body[1..], item, true);
      assert ([body[0]] + k1)[1..] == k1 && ([body[0]] + k2)[1..] == k2 && [] + k1 == k1;
    }
  }

  /** Appending an item the list does not have and removing it again restores the list. */
  lemma {:induction false} RemoveAfterAppend(items: seq<string>, item: string)
    requires item !in items
    ensures Without(items + [item], item) == items
  {
    if items == [] {
      assert [] + [item] == [item] && [item][1..] == [];
    } else {
      RemoveAfterAppend(items[1..], item);
      assert (items + [item])[1..] == items[1..] + [item];
    }
  }

  /** Appending an item that is not there and removing it again leaves the list as it was. */
  lemma AppendThenRemove(before: seq<string>, keyLine: string, body: seq<string>, rest: seq<string>, key: string,
                         item: string)
    requires IsBlock(before, keyLine, body, rest, key) && IsPlain(item)
    requires item !in Read(before + ([keyLine] + (body + rest)), false, key)
    ensures var lines := before + ([keyLine] + (body + rest));
      Read(Removed(Appended(lines, key, item), key, item), false, key) == Read(lines, false, key)
  {
    hide Trim, IsBody, Read, IsPlain, IsKeyLine, Items, Appended, PastItems, IsBlank, IsDash, IsKey, Removed;
    KeyAlone(keyLine, key);
    KeyLineOpens(keyLine, false, key);
    BlockReads(before, keyLine, body, rest, key);
    PastBody(body, rest);
    var n := PastItems(body + rest);
    var now := body[..n] + [ItemLine(item)] + body[n..];
    AppendedAt(before, keyLine, body, rest, key, item);
    BodySplits(body, n);
    ItemLineIsItem(item);
    InsertedBody(body[..n], item, body[n..]);
    AppendReads(before, keyLine, body, rest, key, item);
    RemoveReads(before, keyLine, now, rest, key, item);
    RemoveAfterAppend(Items(body), item);
  }

  // ----- when a removal changes nothing -----

  /** Whether line `i` may be an item: only items and blank lines stand between it and a key line above. */
  predicate ListOpen(lines: seq<string>, i: nat, key: string)
    requires i <= |lines|
  {
    i > 0 && (IsKeyLine(lines[i - 1], key)
              || (ListOpen(lines, i - 1, key) && (IsDash(lines[i - 1]) || IsBlank(lines[i - 1]))))
  }

  predicate IsItemLine(line: string, key: string) {
    IsDash(line) && !IsKeyLine(line, key)
  }

  /** Up to line `n`: right under each key line stands an item, and none of the items is the one to be removed. */
  predicate ListsStand(lines: seq<string>, n: nat, key: string, item: string)
    requires n <= |lines|
  {
    (forall i :: 0 < i < n && IsKeyLine(lines[i - 1], key) ==> IsItemLine(lines[i], key))
    && forall i :: 0 <= i < n && ListOpen(lines, i, key) && IsItemLine(lines[i], key) ==> ParsedItem(lines[i]) != item
  }

  /** In the whole file, and a key line does not end it. */
  predicate RemovalIdle(lines: seq<string>, key: string, item: string) {
    ListsStand(lines, |lines|, key, item) && (lines != [] ==> !IsKeyLine(lines[|lines| - 1], key))
  }

  /** What the remover has kept so far, the key line it holds back included. */
  function Kept(s: Removal): seq<string> {
    s.out + Held(s.pending)
  }

  predicate HoldsInList(s: Removal) {
    s.pending.Some? ==> s.inList && s.remaining == 0
  }

  predicate KeepsLine(s: Removal, line: string, key: string, item: string) {
    if IsKeyLine(line, key) then s.pending.None?
    else if !s.inList then true
    else if IsDash(line) then ParsedItem(line) != item
    else s.pending.None?
  }

  /** A line is kept as it stands, or something goes. */
  lemma StepKeeps(s: Removal, line: string, key: string, item: string)
    requires HoldsInList(s)
    ensures var next := RemovalStep(s, line, key, item);
      HoldsInList(next) && |Kept(next)| <= |Kept(s)| + 1
      && (|Kept(next)| == |Kept(s)| + 1 <==> KeepsLine(s, line, key, item))
      && (KeepsLine(s, line, key, item) ==> Kept(next) == Kept(s) + [line])
      && forall l <- Kept(next) :: l in Kept(s) || l == line
  {
    hide IsKeyLine, IsDash, IsBlank, ParsedItem;
    assert |PopBlank(s.out)| <= |s.out| && forall l <- PopBlank(s.out) :: l in s.out;
    assert s.out + [] == s.out;
  }

  lemma RunLast(s: Removal, lines: seq<string>, i: nat, key: string, item: string)
    requires i < |lines|
    ensures RemovalRun(s, lines[..i + 1], key, item)
      == RemovalStep(RemovalRun(s, lines[..i], key, item), lines[i], key, item)
  {
    hide RemovalStep;
    assert lines[..i + 1] == lines[..i] + [lines[i]];
    RunConcat(s, lines[..i], [lines[i]], key, item);
    var e := RemovalRun(s, lines[..i], key, item);
    assert [lines[i]][1..] == [];
    assert RemovalRun(e, [lines[i]], key, item) == RemovalRun(RemovalStep(e, lines[i], key, item), [], key, item);
  }

  /** After `i` lines the remover has kept at most as many, and as many exactly when nothing had to go. */
  predicate KeptTo(s: Removal, lines: seq<string>, i: nat, key: string, item: string)
    requires i <= |lines|
  {
    HoldsInList(s) && |Kept(s)| <= i && s.inList == ListOpen(lines, i, key)
    && (|Kept(s)| == i <==> ListsStand(lines, i, key, item))
    && (|Kept(s)| == i ==>
          Kept(s) == lines[..i] && (s.pending.Some? <==> i > 0 && IsKeyLine(lines[i - 1], key)))
    && forall l <- Kept(s) :: l in lines
  }

  lemma KeptNext(s: Removal, lines: seq<string>, i: nat, key: string, item: string)
    requires i < |lines| && KeptTo(s, lines, i, key, item)
    ensures KeptTo(RemovalStep(s, lines[i], key, item), lines, i + 1, key, item)
  {
    hide IsKeyLine, IsDash, IsBlank, ParsedItem, RemovalStep, ListsStand;
    var next := RemovalStep(s, lines[i], key, item);
    StepKeeps(s, lines[i], key, item);
    StepOpens(s, lines[i], key, item);
    StandsNext(lines, i, key, item);
    assert lines[..i + 1] == lines[..i] + [lines[i]];
  }

  lemma StepOpens(s: Removal, line: string, key: string, item: string)
    ensures RemovalStep(s, line, key, item).inList
      <==> IsKeyLine(line, key) || (s.inList && (IsDash(line) || IsBlank(line)))
    ensures RemovalStep(s, line, key, item).pending.Some? && KeepsLine(s, line, key, item) ==>
      IsKeyLine(line, key) || (!s.inList && s.pending.Some?)
    ensures IsKeyLine(line, key) ==> RemovalStep(s, line, key, item).pending.Some?
  {
    hide IsKeyLine, IsDash, IsBlank, ParsedItem;
  }

  lemma StandsNext(lines: seq<string>, i: nat, key: string, item: string)
    requires i < |lines|
    ensures ListsStand(lines, i + 1, key, item) <==>
      ListsStand(lines, i, key, item)
      && (i > 0 && IsKeyLine(lines[i - 1], key) ==> IsItemLine(lines[i], key))
      && (ListOpen(lines, i, key) && IsItemLine(lines[i], key) ==> ParsedItem(lines[i]) != item)
  {
    hide IsKeyLine, IsDash, IsBlank, ParsedItem, IsItemLine, ListOpen;
  }

  lemma {:induction false} RunKeeps(lines: seq<string>, i: nat, key: string, item: string)
    requires i <= |lines|
    ensures KeptTo(RemovalRun(Removal([], false, None, 0), lines[..i], key, item), lines, i, key, item)
  {
    hide IsKeyLine, IsDash, IsBlank, ParsedItem, RemovalStep;
    if i > 0 {
      RunKeeps(lines, i - 1, key, item);
      RunLast(Removal([], false, None, 0), lines, i - 1, key, item);
      hide KeptTo, RemovalRun;
      KeptNext(RemovalRun(Removal([], false, None, 0), lines[..i - 1], key, item), lines, i - 1, key, item);
    }
  }

  /** A removal leaves the lines alone, in any file, exactly when right under each key line stands an item and no
      item under a key is the one to be removed. Otherwise the file gets shorter. */
  lemma RemovalIdleIff(lines: seq<string>, key: string, item: string)
    ensures Removed(lines, key, item) == lines <==> RemovalIdle(lines, key, item)
    ensures |Removed(lines, key, item)| <= |lines|
    ensures |Removed(lines, key, item)| == |lines| ==> Removed(lines, key, item) == lines
    ensures forall l <- Removed(lines, key, item) :: l in lines
  {
    hide IsKeyLine, IsDash, IsBlank, ParsedItem, RemovalStep, RemovalRun, ListsStand, ListOpen;
    RunKeeps(lines, |lines|, key, item);
    assert lines[..|lines|] == lines;
    var s := RemovalRun(Removal([], false, None, 0), lines, key, item);
    assert s.pending.None? ==> Kept(s) == s.out;
    assert |PopBlank(s.out)| <= |s.out| && forall l <- PopBlank(s.out) :: l in s.out;
  }

  /** A key line that no item follows goes, whatever it holds, and so does a blank line before it. */
  lemma ListWithoutItemsGoes(before: seq<string>, keyLine: string, rest: seq<string>, key: string, item: string)
    requires IsKeyLine(keyLine, key) && forall l <- before + rest :: !IsKeyLine(l, key)
    requires rest != [] ==> !IsBlank(rest[0]) && !IsDash(rest[0])
    ensures Removed(before + ([keyLine] + rest), key, item) == PopBlank(before) + rest
  {
    hide IsKeyLine, IsDash, IsBlank, RemovalStep, RemovalRun, PopBlank;
    var s0 := Removal([], false, None, 0);
    assert forall l <- before :: l in before + rest;
    assert forall l <- rest :: l in before + rest;
    RunConcat(s0, before, [keyLine] + rest, key, item);
    RunOutside(s0, before, key, item);
    assert [] + before == before;
    RunKey(Removal(before, false, None, 0), keyLine, rest, key, item);
    RunRest(Removal(before, true, Some(keyLine), 0), rest, key, item);
  }

  /** A list in flow style is all on its key line: removing an item that is not in it removes the list. */
  lemma FlowListRemoved(item: string)
    ensures Removed(["optional_kits: [a, b]"], "optional_kits", item) == []
  {
    hide Removed;
    FlowKeyLine();
    ListWithoutItemsGoes([], "optional_kits: [a, b]", [], "optional_kits", item);
    assert [] + (["optional_kits: [a, b]"] + []) == ["optional_kits: [a, b]"];
    assert PopBlank([]) + [] == [];
  }

  lemma FlowKeyLine()
    ensures IsKeyLine("optional_kits: [a, b]", "optional_kits")
  {
    var line := "optional_kits: [a, b]";
    TrimmedStays(line);
    assert "optional_kits" + ":" == line[..14];
  }

  /** Removing an item that is not there: a blank line under the key goes, and a key without items goes. */
  lemma AbsentItemRemoved()
    ensures Removed(["k:", "", "  - a"], "k", "b") == ["k:", "  - a"]
    ensures Removed(["k:"], "k", "b") == []
  {
    hide Trim, Removed, IsKeyLine;
    KeyIsTrimmed("k");
    ExampleBody();
    NothingElsewhere("k");
    var body := ["", ItemLine("a")];
    assert ItemLine("a") == "  - a";
    RemovedIs([], "k:", body, [], "k", "b");
    RemovedIs([], "k:", [], [], "k", "b");
    assert [] + (["k:"] + (body + [])) == ["k:", "", "  - a"];
    assert [] + (["k:"] + ([] + [])) == ["k:"];
    assert [] + (["k:"] + ([ItemLine("a")] + [])) == ["k:", "  - a"];
  }

  lemma ExampleBody()
    ensures IsKey("k") && "k" + ":" == "k:"
    ensures var body := ["", ItemLine("a")];
      IsBody(body) && IsBody([]) && Without(Items(body), "b") == ["a"] && KeptBody(body, "b", false) == [ItemLine("a")]
      && Without(Items([]), "b") == []
  {
    ItemLineIsItem("a");
    EmptyTrim();
    var l := ItemLine("a");
    ItemReads(l, "a", "k");
    assert Trim(l)[2..] == "a";
    var body := ["", l];
    assert body[1..] == [l] && [l][1..] == [];
    assert Items([l]) == ["a"] + Items([]) == ["a"];
    assert Items(body) == [] + Items([l]);
    assert ["a"][1..] == [];
    assert KeptBody([l], "b", false) == [l] + KeptBody([], "b", true) == [l];
    assert KeptBody(body, "b", false) == [] + KeptBody([l], "b", false);
  }

  // ----- the file as written -----

  lemma {:induction false} StripReads(lines: seq<string>, open: bool, key: string)
    ensures Read(StripAll(lines), open, key) == Read(lines, open, key)
  {
    hide Trim, KeyOf, ReadItem, StripCR, IsSkipped;
    if lines != [] {
      StripTrim(lines[0]);
      StripReads(lines[1..], Open(lines[0], open, key), key);
    }
  }

  /** What is written reads back as the edited lines did, whatever the file's last line was. */
  lemma FinishedReads(lines: seq<string>, key: string)
    requires forall l <- lines :: IsLine(l)
    ensures Read(Lines(Finished(lines)), false, key) == Read(lines, false, key)
  {
    hide Lines, Read, StripAll, IsLine;
    FinishedLines(lines);
    var kept := if lines != [] && lines[|lines| - 1] == "" then lines[..|lines| - 1] else lines;
    StripReads(kept, false, key);
    if kept != lines {
      assert lines == kept + [""];
      ReadConcat(kept, [""], false, key);
      BlankLineReads(OpenAfter(kept, false, key), key);
      assert Read(kept, false, key) + [] == Read(kept, false, key);
    }
    BlankLineReads(false, key);
  }

  lemma BlankLineReads(open: bool, key: string)
    ensures Read([""], open, key) == [] && Read([], open, key) == []
  {
    EmptyTrim();
    assert [""][1..] == [];
  }

  lemma FinishedLines(lines: seq<string>)
    requires forall l <- lines :: IsLine(l)
    ensures var kept := if lines != [] && lines[|lines| - 1] == "" then lines[..|lines| - 1] else lines;
      Lines(Finished(lines)) == StripAll(kept) || (kept == [] && Lines(Finished(lines)) == [""])
  {
    hide Lines, StripAll;
    if lines == [] || lines == [""] {
      assert Finished(lines) == "" + "\n" + "";
      LinesFirst("", "");
      assert Lines("") == [] by { NoText(); }
      assert [StripCR("")] + [] == [""];
    } else {
      JoinEnds(lines);
      JoinUnlines(lines);
      var last := lines[|lines| - 1];
      if last == "" {
        var init := lines[..|lines| - 1];
        assert lines == init + [""];
        UnlinesConcat(init, [""]);
        OneLineText("");
        assert Join(lines, "\n") + "\n" == Unlines(init) + "\n";
        SameBeforeBreak(Join(lines, "\n"), Unlines(init));
        LinesUnlines(init);
      } else {
        LinesUnlines(lines);
      }
    }
  }

  lemma NoText()
    ensures Lines("") == []
  {
  }

  lemma SameBeforeBreak(a: string, b: string)
    requires a + "\n" == b + "\n"
    ensures a == b
  {
    assert (a + "\n")[..|a|] == a && (b + "\n")[..|b|] == b && |a + "\n"| == |b + "\n"|;
  }

  /** The joined text ends in a newline exactly when the last of several lines is empty. */
  lemma {:induction false} JoinEnds(lines: seq<string>)
    requires lines != [] && lines != [""] && forall l <- lines :: IsLine(l)
    ensures EndsWith(Join(lines, "\n"), "\n") <==> lines[|lines| - 1] == ""
  {
    if |lines| == 1 {
      assert lines == [lines[0]];
      assert lines[0] in lines && IsLine(lines[0]);
      EndsInBreak(lines[0]);
    } else {
      var tail := Join(lines[1..], "\n");
      EndsInBreak(lines[0] + "\n" + tail);
      if lines[1..] == [""] {
        assert tail == "";
        assert lines[1..][0] == lines[1];
      } else {
        JoinEnds(lines[1..]);
        JoinNotEmpty(lines[1..]);
        EndsInBreak(tail);
      }
    }
  }

  lemma EndsInBreak(s: string)
    ensures EndsWith(s, "\n") <==> s != "" && s[|s| - 1] == '\n'
  {
    assert s != "" ==> s[|s| - 1..] == [s[|s| - 1]];
  }

  lemma JoinNotEmpty(lines: seq<string>)
    requires lines != [] && lines != [""]
    ensures Join(lines, "\n") != ""
  {
    assert |lines| == 1 ==> lines == [lines[0]];
  }

  // ----- file to file -----

  /** Reading the file after an append gives the old list and the item once at its end. */
  lemma AppendedFileReads(existing: string, before: seq<string>, keyLine: string, body: seq<string>, rest: seq<string>,
                          key: string, item: string)
    requires Lines(existing) == before + ([keyLine] + (body + rest))
    requires IsBlock(before, keyLine, body, rest, key) && IsPlain(item) && IsLine(item)
    ensures Read(Lines(Finished(Appended(Lines(existing), key, item))), false, key)
      == Read(Lines(existing), false, key) + [item]
  {
    hide Lines, Read, Appended, IsBlock, IsPlain, Finished, ItemLine;
    AppendReads(before, keyLine, body, rest, key, item);
    var lines := Lines(existing);
    var at :| |before| < at <= |before| + 1 + |body|
      && Appended(lines, key, item) == lines[..at] + [ItemLine(item)] + lines[at..];
    LinesAreLines(existing);
    assert IsLine(ItemLine(item)) by { ItemIsLine(item); }
    assert forall l <- Appended(lines, key, item) :: l in lines || l == ItemLine(item);
    FinishedReads(Appended(lines, key, item), key);
  }

  lemma ItemIsLine(item: string)
    requires IsLine(item)
    ensures IsLine(ItemLine(item))
  {
  }

  /** Reading the file after a removal gives the list without the item. */
  lemma RemovedFileReads(existing: string, before: seq<string>, keyLine: string, body: seq<string>, rest: seq<string>,
                         key: string, item: string)
    requires Lines(existing) == before + ([keyLine] + (body + rest)) && IsBlock(before, keyLine, body, rest, key)
    ensures Read(Lines(Finished(Removed(Lines(existing), key, item))), false, key)
      == Without(Read(Lines(existing), false, key), item)
  {
    hide Lines, Read, Removed, IsBlock, Finished, Items, Without, KeptBody, IsLine;
    RemoveReads(before, keyLine, body, rest, key, item);
    RemovalIdleIff(Lines(existing), key, item);
    LinesAreLines(existing);
    FinishedReads(Removed(Lines(existing), key, item), key);
  }

  /** The file after an append, the guard against repeated items reading the list as the file holds it. */
  function AppendedFile(existing: string, key: string, item: string): string {
    if item in Read(Lines(existing), false, key) then existing else Finished(Appended(Lines(existing), key, item))
  }

  /** In a block-style file appending is idempotent: the second append finds the item and writes nothing. */
  lemma AppendTwice(existing: string, before: seq<string>, keyLine: string, body: seq<string>, rest: seq<string>,
                    key: string, item: string)
    requires Lines(existing) == before + ([keyLine] + (body + rest))
    requires IsBlock(before, keyLine, body, rest, key) && IsPlain(item) && IsLine(item)
    ensures var now := AppendedFile(existing, key, item);
      item in Read(Lines(now), false, key) && AppendedFile(now, key, item) == now
  {
    hide Lines, Read, Appended, IsBlock, IsPlain, Finished;
    if item !in Read(Lines(existing), false, key) {
      AppendedFileReads(existing, before, keyLine, body, rest, key, item);
    }
  }

  /** The removal writes the file it found, whatever the file, exactly when it left the lines alone and the file was
      written as the program writes it. */
  lemma RemovedFileSameIff(existing: string, key: string, item: string)
    ensures Finished(Removed(Lines(existing), key, item)) == existing
      <==> RemovalIdle(Lines(existing), key, item) && Finished(Lines(existing)) == existing
  {
    hide Lines, Removed, Finished, RemovalIdle, IsLine, StripAll, IsKeyLine;
    var lines := Lines(existing);
    var now := Removed(lines, key, item);
    RemovalIdleIff(lines, key, item);
    LinesAreLines(existing);
    FinishedLines(now);
    if lines == [""] {
      EmptyLineIdle(key, item);
    }
  }

  lemma EmptyLineIdle(key: string, item: string)
    ensures RemovalIdle([""], key, item)
  {
    EmptyTrim();
    assert !IsKeyLine("", key);
  }

  // ----- appending to a list in flow style -----

  /** The line reader reads nothing of a list that stands on its key line, and after an append the new item alone. */
  lemma FlowListReplaced(before: seq<string>, keyLine: string, rest: seq<string>, key: string, item: string)
    requires IsKey(key) && IsKeyLine(keyLine, key) && Elsewhere(before, key) && Elsewhere(rest, key) && IsPlain(item)
    requires rest != [] ==> !IsBlank(rest[0]) && !IsDash(rest[0])
    ensures var lines := before + ([keyLine] + rest);
      Read(lines, false, key) == [] && Read(Appended(lines, key, item), false, key) == [item]
  {
    hide Trim, Read, IsPlain, IsKeyLine, Appended, PastItems, IsBlank, IsDash, IsKey, LineItem, Open, OpenAfter;
    NoneToPass(rest);
    assert [] + rest == rest;
    AppendedAt(before, keyLine, [], rest, key, item);
    assert [][..0] + [ItemLine(item)] + [][0..] == [ItemLine(item)];
    UnderKey(before, keyLine, [], rest, key);
    ItemLineIsItem(item);
    ItemReads(ItemLine(item), item, key);
    OneItemReads(ItemLine(item), item, key);
    UnderKey(before, keyLine, [ItemLine(item)], rest, key);
  }

  lemma OneItemReads(line: string, item: string, key: string)
    requires Open(line, true, key) && LineItem(line, true) == [item]
    ensures Read([line], true, key) == [item] && OpenAfter([line], true, key)
    ensures Read([], true, key) == [] && OpenAfter([], true, key)
  {
    hide LineItem, Open;
    assert [line][1..] == [];
  }
}
