/** How the lines of `.lex/repo.yml` may be written: what the line reader and the remover make of indentation, quotes
    and comments (src/git2_nquads.rs and src/kit.rs). */
module RepoYmlLaws {
  import opened Wrappers
  import opened Text
  import opened RepoYml

  predicate IsPadding(s: string) {
    forall c <- s :: IsWhite(c)
  }

  /** An item without quotes or white space at its ends. */
  predicate IsBareItem(x: string) {
    x != "" && IsTrimmed(x) && x[0] !in {'"', '\''} && x[|x| - 1] !in {'"', '\''}
  }

  predicate IsQuote(q: string) {
    q == "" || q == "\"" || q == "'"
  }

  // ----- quotes -----

  lemma NothingToTake(s: string, c: char)
    requires s != "" && s[0] != c && s[|s| - 1] != c
    ensures TrimMatches(s, c) == s
  {
  }

  lemma PairComesOff(x: string, c: char)
    requires x != "" && x[0] != c && x[|x| - 1] != c
    ensures TrimMatches([c] + x + [c], c) == x
  {
    NothingToTake(x, c);
    assert ([c] + x + [c])[1..] == x + [c];
    assert (x + [c])[..|x|] == x && (x + [c])[0] == x[0];
  }

  /** The reader takes double quotes off, the remover quotes of both kinds. */
  lemma QuotesOff(q: string, x: string)
    requires IsQuote(q) && IsBareItem(x)
    ensures TrimMatches(q + x + q, '"') == if q == "'" then q + x + q else x
    ensures TrimMatches(TrimMatches(q + x + q, '"'), '\'') == x
    ensures IsTrimmed(q + x + q) && q + x + q != ""
  {
    var s := q + x + q;
    NothingToTake(x, '"');
    NothingToTake(x, '\'');
    if q == "" {
      assert s == x;
    } else {
      assert s == [q[0]] + x + [q[0]];
      PairComesOff(x, q[0]);
      if q == "'" {
        NothingToTake(s, '"');
      }
    }
  }

  // ----- the line reader -----

  /** An item line under its open key gives its item, without double quotes and with single ones; under another key
      it gives nothing, and it opens and closes no key. */
  lemma ItemLineReads(indent: string, gap: string, q: string, x: string, after: string, open: bool, key: string)
    requires IsPadding(indent) && IsPadding(gap) && IsPadding(after) && IsQuote(q) && IsBareItem(x)
    ensures var line := indent + ("- " + gap + (q + x + q)) + after;
      LineItem(line, open) == (if !open then [] else if q == "'" then ["'" + x + "'"] else [x])
      && Open(line, open, key) == open
  {
    hide Trim, TrimMatches;
    var item, body := q + x + q, "- " + gap + (q + x + q);
    QuotesOff(q, x);
    assert body[0] == '-' && body[1] == ' ' && body[|body| - 1] == item[|item| - 1];
    TrimPadded(indent, body, after);
    assert body[2..] == gap + item;
    TrimPadded(gap, item, "");
    assert gap + item + "" == gap + item;
    assert !StartsWith(body, "#") && StartsWith(body, "- ");
  }

  /** A blank line and a comment give nothing and leave the key that is open as it is. */
  lemma CommentsSkipped(indent: string, comment: string, after: string, open: bool, key: string)
    requires IsPadding(indent) && IsPadding(after) && IsTrimmed(comment)
    requires comment == "" || comment[0] == '#'
    ensures LineItem(indent + comment + after, open) == []
    ensures Open(indent + comment + after, open, key) == open
  {
    TrimPadded(indent, comment, after);
  }

  /** A line with a colon that is neither an item nor a comment opens the key before its first colon and closes every
      other. */
  lemma NameLineOpens(indent: string, name: string, gap: string, rest: string, open: bool, key: string)
    requires IsPadding(indent) && IsPadding(gap) && IsTrimmed(name) && ':' !in name
    requires name != "" && name[0] !in {'#', '-'} && IsTrimmed(name + gap + ":" + rest)
    ensures var line := indent + (name + gap + ":" + rest);
      Open(line, open, key) == (name == key) && LineItem(line, open) == []
  {
    hide Trim;
    var text := name + gap + ":" + rest;
    TrimPadded(indent, text, "");
    assert indent + text + "" == indent + text;
    var head := name + gap;
    assert text[..|head|] == head && text[|head|] == ':';
    assert ':' !in head;
    IndexOfUnique(text, ':', |head|);
    TrimPadded("", name, gap);
    assert "" + name + gap == head;
    assert text[0] == name[0];
  }

  // ----- the remover -----

  /** The remover knows an item by its text alone, whatever the quotes and the space after its dash. */
  lemma ItemLineParses(indent: string, gap: string, q: string, x: string, after: string)
    requires IsPadding(indent) && IsPadding(gap) && IsPadding(after) && IsQuote(q) && IsBareItem(x)
    ensures var line := indent + ("-" + gap + (q + x + q)) + after; IsDash(line) && ParsedItem(line) == x
  {
    hide Trim, TrimMatches;
    var item, body := q + x + q, "-" + gap + (q + x + q);
    QuotesOff(q, x);
    assert body[0] == '-' && body[|body| - 1] == item[|item| - 1];
    TrimPadded(indent, body, after);
    assert body[1..] == gap + item;
    TrimPadded(gap, item, "");
    assert gap + item + "" == gap + item;
  }

  /** Reader and remover differ in single quotes: of the list with the one item `'x'` the reader reads the item with
      its quotes, and removing `x` leaves nothing of the list. */
  lemma SingleQuotedRemoved(key: string, x: string)
    requires IsKey(key) && IsBareItem(x)
    ensures var lines := [key + ":", "  - " + ("'" + x + "'")];
      Read(lines, false, key) == ["'" + x + "'"] && Removed(lines, key, x) == []
  {
    hide Trim, IsKeyLine, IsDash, ParsedItem, LineItem, Open;
    var keyLine, line := key + ":", "  - " + ("'" + x + "'");
    assert line == "  " + ("- " + "" + ("'" + x + "'")) + "" && line == "  " + ("-" + " " + ("'" + x + "'")) + "";
    forall open ensures LineItem(line, open) == if open then ["'" + x + "'"] else [] {
      ItemLineReads("  ", "", "'", x, "", open, key);
    }
    ItemLineParses("  ", " ", "'", x, "");
    KeyIsTrimmed(key);
    NoKeyLine(key, x);
    KeyAlone(keyLine, key);
    RepoYml.KeyLineOpens(keyLine, false, key);
    assert [] + ["'" + x + "'"] == ["'" + x + "'"];
    TwoLines(keyLine, line, key, x);
  }

  lemma NoKeyLine(key: string, x: string)
    requires IsKey(key) && IsBareItem(x)
    ensures !IsKeyLine("  - " + ("'" + x + "'"), key)
  {
    hide Trim;
    var text := "- " + ("'" + x + "'");
    assert text[|text| - 1] == '\'';
    TrimPadded("  ", text, "");
    assert "  " + text + "" == "  - " + ("'" + x + "'");
    assert text[0] == '-' && (key + ":")[0] == key[0];
  }

  lemma TwoLines(keyLine: string, line: string, key: string, x: string)
    requires IsKeyLine(keyLine, key) && !IsKeyLine(line, key) && IsDash(line) && ParsedItem(line) == x
    ensures Removed([keyLine, line], key, x) == []
    ensures Read([keyLine, line], false, key)
      == LineItem(keyLine, false) + LineItem(line, Open(keyLine, false, key))
  {
    hide IsKeyLine, IsDash, ParsedItem, LineItem, Open, PopBlank;
    var lines := [keyLine, line];
    assert lines[1..] == [line] && [line][1..] == [];
    var s := Removal([], true, Some(keyLine), 0);
    assert RemovalStep(Removal([], false, None, 0), keyLine, key, x) == s;
    assert RemovalStep(s, line, key, x) == s;
    assert RemovalRun(s, [line], key, x) == RemovalRun(s, [], key, x) == s;
    assert PopBlank([]) == [] by { NothingToPop(); }
    var open := Open(keyLine, false, key);
    assert Read([line], open, key) == LineItem(line, open) + Read([], Open(line, open, key), key);
    assert LineItem(line, open) + [] == LineItem(line, open);
  }

  lemma NothingToPop()
    ensures PopBlank([]) == []
  {
  }
}
