/** The identity line of SOUL.md (`healed_content`, src/soul_md.rs). */
module SoulMd {
  import opened Wrappers
  import opened Text
  import opened Frontmatter

  const SOUL_ID_KEY := "soul.Soul.soulId"

  predicate IsIdLine(line: string) {
    StartsWith(TrimStart(line), SOUL_ID_KEY + ":")
  }

  function FirstId(lines: seq<string>): (r: Option<nat>)
    ensures r.Some? ==> r.value < |lines| && IsIdLine(lines[r.value])
    ensures r.Some? ==> forall j :: 0 <= j < r.value ==> !IsIdLine(lines[j])
    ensures r.None? ==> forall l <- lines :: !IsIdLine(l)
  {
    if lines == [] then None
    else if IsIdLine(lines[0]) then Some(0)
    else match FirstId(lines[1..]) case Some(i) => Some(i + 1) case None => None
  }

  function AfterKey(line: string): string {
    if ':' in line then line[IndexOf(line, ':') + 1..] else ""
  }

  /** The value, up to a comment and without quotes. */
  function Value(line: string): string {
    var after := AfterKey(line);
    var part := if '#' in after then after[..IndexOf(after, '#')] else after;
    TrimMatches(TrimMatches(Trim(part), '"'), '\'')
  }

  function Comment(line: string): Option<string> {
    var after := AfterKey(line);
    if '#' in after then Some(TrimEnd(after[IndexOf(after, '#')..])) else None
  }

  function IdLine(sha: string): string {
    SOUL_ID_KEY + ": " + sha
  }

  function Suffix(line: string): string {
    match Comment(line) case Some(c) => " " + c case None => ""
  }

  function NewLine(line: string, sha: string): string {
    IdLine(sha) + Suffix(line)
  }

  /** The soulId a document holds: of the first such line of its frontmatter. */
  function SoulId(content: string): Option<string> {
    match Framed(content)
    case None => None
    case Some((block, _)) =>
      match FirstId(Lines(block)) case Some(i) => Some(Value(Lines(block)[i])) case None => None
  }

  function Healed(content: string, sha: string): Option<(string, Option<string>)> {
    if Opened(content).None? then Some(("---\n" + IdLine(sha) + "\n---\n\n" + content, None))
    else match Framed(content)
      case None => None
      case Some((block, body)) =>
        var lines := Lines(block);
        match FirstId(lines)
        case Some(i) =>
          var value := Value(lines[i]);
          if value == sha then None
          else
            Some(("---\n" + Join(lines[i := NewLine(lines[i], sha)], "\n") + "\n---\n" + body,
                  if value == "" then None else Some(value)))
        case None => Some(("---\n" + IdLine(sha) + "\n" + block + "---\n" + body, None))
  }

  /** `healed_content`: a search for the line, then one of three rewrites. */
  method HealedContent(content: string, sha: string) returns (r: Option<(string, Option<string>)>)
    ensures r == Healed(content, sha)
  {
    if !StartsWith(content, "---\n") && !StartsWith(content, "---\r\n") {
      return Some(("---\n" + IdLine(sha) + "\n---\n\n" + content, None));
    }
    var fm, body := SplitFrontmatter(content);
    if fm.None? {
      return None;
    }
    var block := fm.value;
    var lines := Lines(block);
    var found := FindId(lines);
    match found {
      case Some(i) =>
        var value := Value(lines[i]);
        if value == sha {
          return None;
        }
        var newBlock := lines[i := NewLine(lines[i], sha)];
        var previous := if value == "" then None else Some(value);
        return Some(("---\n" + Join(newBlock, "\n") + "\n---\n" + body, previous));
      case None =>
        return Some(("---\n" + IdLine(sha) + "\n" + block + "---\n" + body, None));
    }
  }

  method FindId(lines: seq<string>) returns (found: Option<nat>)
    ensures found == FirstId(lines)
  {
    for i := 0 to |lines|
      invariant forall j :: 0 <= j < i ==> !IsIdLine(lines[j])
    {
      if IsIdLine(lines[i]) {
        FirstIdIs(lines, i);
        return Some(i);
      }
    }
    NoFirstId(lines);
    return None;
  }

  lemma NoFirstId(lines: seq<string>)
    requires forall j :: 0 <= j < |lines| ==> !IsIdLine(lines[j])
    ensures FirstId(lines).None?
  {
    hide IsIdLine;
  }

  // ----- the line that is written -----

  predicate IsHex(c: char) {
    '0' <= c <= '9' || 'a' <= c <= 'f'
  }

  /** A commit id. */
  predicate IsSha(sha: string) {
    sha != "" && forall c <- sha :: IsHex(c)
  }

  lemma KeyShape()
    ensures |SOUL_ID_KEY| == 16 && SOUL_ID_KEY[0] == 's' && ':' !in SOUL_ID_KEY && '\n' !in SOUL_ID_KEY
  {
  }

  lemma ShaTrims(sha: string, pad: string)
    requires IsSha(sha) && (pad == "" || pad == " ")
    ensures Trim(" " + sha + pad) == sha && TrimMatches(TrimMatches(sha, '"'), '\'') == sha
    ensures '#' !in " " + sha + pad
  {
    assert sha[0] in sha && sha[|sha| - 1] in sha;
    assert (" " + sha + pad)[1..] == sha + pad;
    assert TrimStart(sha + pad) == sha + pad;
    TrimmedStays(sha);
    if pad == " " {
      assert (sha + pad)[..|sha|] == sha && (sha + pad)[|sha|] == ' ';
    } else {
      assert sha + pad == sha;
    }
  }

  /** Whatever comment follows it, the written line holds the sha. */
  lemma NewLineReads(line: string, sha: string)
    requires IsSha(sha)
    ensures Value(NewLine(line, sha)) == sha && IsIdLine(NewLine(line, sha))
    ensures Comment(NewLine(line, sha)) == Comment(line)
  {
    hide Trim, TrimEnd, TrimMatches, IsIdLine, AfterKey, IdLine, NewLine;
    CommentShape(line);
    WrittenAfterKey(sha, Suffix(line));
    WrittenIsId(sha, Suffix(line));
    assert NewLine(line, sha) == IdLine(sha) + Suffix(line) by { NewLineIs(line, sha); }
    ShaTrims(sha, "");
    ShaTrims(sha, " ");
    var after := " " + sha + Suffix(line);
    if Comment(line).Some? {
      HashSplits(" " + sha + " ", Comment(line).value);
      assert after == (" " + sha + " ") + Comment(line).value;
    } else {
      assert after == " " + sha + "";
    }
  }

  lemma NewLineIs(line: string, sha: string)
    ensures NewLine(line, sha) == IdLine(sha) + Suffix(line)
  {
  }

  lemma HashSplits(part: string, c: string)
    requires '#' !in part && c != "" && c[0] == '#'
    ensures '#' in part + c && (part + c)[..IndexOf(part + c, '#')] == part && (part + c)[IndexOf(part + c, '#')..] == c
  {
    assert (part + c)[..|part|] == part && (part + c)[|part|] == '#';
    IndexOfUnique(part + c, '#', |part|);
  }

  lemma WrittenAfterKey(sha: string, suffix: string)
    ensures AfterKey(IdLine(sha) + suffix) == " " + sha + suffix
  {
    KeyShape();
    var s := IdLine(sha) + suffix;
    assert s == SOUL_ID_KEY + (":" + (" " + sha + suffix));
    assert s[..16] == SOUL_ID_KEY && s[16] == ':';
    IndexOfUnique(s, ':', 16);
  }

  lemma WrittenIsId(sha: string, suffix: string)
    ensures IsIdLine(IdLine(sha) + suffix)
  {
    KeyShape();
    var s := IdLine(sha) + suffix;
    assert s[0] == 's' && TrimStart(s) == s;
    assert s[..17] == SOUL_ID_KEY + ":";
  }

  lemma CommentShape(line: string)
    ensures Comment(line).Some? ==>
      var c := Comment(line).value;
      c != "" && c[0] == '#' && !IsWhite(c[|c| - 1]) && TrimEnd(c) == c && (IsLine(line) ==> IsLine(c))
  {
    var after := AfterKey(line);
    if '#' in after {
      var t := after[IndexOf(after, '#')..];
      TrimEndShape(t);
      assert t[0] == '#' && !IsWhite('#');
      var c := TrimEnd(t);
      assert TrimEnd(c) == c;
    }
  }

  lemma NewLineIsLine(line: string, sha: string)
    requires IsSha(sha) && IsLine(line)
    ensures IsLine(NewLine(line, sha)) && !Closes(NewLine(line, sha))
      && StripCR(NewLine(line, sha)) == NewLine(line, sha)
  {
    hide TrimEnd, Comment;
    KeyShape();
    CommentShape(line);
    var text := NewLine(line, sha);
    assert sha[|sha| - 1] in sha && IsHex(sha[|sha| - 1]);
    assert text[0] == 's';
    NotAFence(text);
    assert IsLine(sha) by { ShaIsLine(sha); }
    match Comment(line) {
      case Some(c) => assert text[|text| - 1] == c[|c| - 1];
      case None => assert text == IdLine(sha);
    }
  }

  lemma NotAFence(s: string)
    requires s != "" && s[0] == 's'
    ensures !Closes(s)
  {
    TrimEndShape(s);
    assert FENCE[0] == '-';
  }

  lemma ShaIsLine(sha: string)
    requires IsSha(sha)
    ensures IsLine(sha)
  {
  }

  // ----- healing -----

  /** A fence was opened and never closed. */
  predicate Unclosed(content: string) {
    Opened(content).Some? && Framed(content).None?
  }

  /** Nothing is written exactly when the document already holds the sha, or its fence is never closed. */
  lemma UntouchedIff(content: string, sha: string)
    ensures Healed(content, sha).None? <==> Unclosed(content) || SoulId(content) == Some(sha)
  {
    hide Value, Lines, Frame, Join, SplitInclusive, StartsWith;
  }

  lemma StripBlock(lines: seq<string>)
    requires IsBlock(lines)
    ensures IsBlock(StripAll(lines))
  {
    hide TrimEnd, StripCR;
    forall l | l in StripAll(lines)
      ensures IsLine(l) && !Closes(l)
    {
      var i :| 0 <= i < |lines| && l == StripAll(lines)[i];
      assert lines[i] in lines;
      StripTrimEnd(lines[i]);
    }
  }

  lemma StripTrimEnd(l: string)
    ensures TrimEnd(StripCR(l)) == TrimEnd(l) && (IsLine(l) ==> IsLine(StripCR(l)))
  {
  }

  lemma StripId(l: string)
    ensures IsIdLine(StripCR(l)) == IsIdLine(l)
  {
    KeyShape();
    if l != "" && l[|l| - 1] == '\r' {
      var s := l[..|l| - 1];
      assert l == s + ['\r'];
      TrimStartAppend(s);
      var key := SOUL_ID_KEY + ":";
      assert key[16] == ':';
      var t := TrimStart(s) + ['\r'];
      assert t[|t| - 1] == '\r';
      assert |TrimStart(s)| >= 17 ==> t[..17] == TrimStart(s)[..17];
    }
  }

  lemma {:induction false} TrimStartAppend(s: string)
    ensures TrimStart(s + ['\r']) == if TrimStart(s) == "" then "" else TrimStart(s) + ['\r']
  {
    if s == "" {
      assert (s + ['\r'])[1..] == "";
    } else if IsWhite(s[0]) {
      assert (s + ['\r'])[1..] == s[1..] + ['\r'];
      TrimStartAppend(s[1..]);
    }
  }

  lemma {:induction false} FirstIdStripped(lines: seq<string>)
    ensures FirstId(StripAll(lines)) == FirstId(lines)
  {
    hide IsIdLine, StripCR;
    if lines != [] {
      StripId(lines[0]);
      FirstIdStripped(lines[1..]);
      assert StripAll(lines)[1..] == StripAll(lines[1..]);
    }
  }

  /** The document after healing, in its lines: one identity line, everything else as it stood. */
  predicate IsHealed(out: string, lines: seq<string>, body: string) {
    Framed(out) == Some((Unlines(lines), body)) && Lines(Unlines(lines)) == StripAll(lines)
  }

  lemma WrittenIsHealed(lines: seq<string>, body: string)
    requires IsBlock(lines)
    ensures IsHealed("---\n" + Unlines(lines) + "---\n" + body, lines, body)
  {
    hide Frame, Closes, Lines;
    FramedBack(lines, body);
    LinesUnlines(lines);
  }

  lemma FreshIsHealed(content: string, sha: string)
    requires IsSha(sha) && Opened(content).None?
    ensures Healed(content, sha) == Some(("---\n" + Unlines([NewLine("", sha)]) + "---\n" + ("\n" + content), None))
    ensures IsBlock([NewLine("", sha)])
  {
    hide Frame, SplitInclusive, Closes, Opened, Framed, IdLine, NewLine, Unlines;
    NewLineIsLine("", sha);
    NewLineOfNothing(sha);
    OneLineText(NewLine("", sha));
    FreshText(IdLine(sha), content);
  }

  lemma NewLineOfNothing(sha: string)
    ensures NewLine("", sha) == IdLine(sha)
  {
    assert Comment("").None?;
    assert IdLine(sha) + "" == IdLine(sha);
  }

  lemma FreshText(id: string, content: string)
    ensures "---\n" + id + "\n---\n\n" + content == "---\n" + (id + "\n") + "---\n" + ("\n" + content)
  {
    assert "\n---\n\n" == "\n" + "---\n" + "\n";
  }

  lemma BlockText(id: string, block: string, body: string)
    ensures "---\n" + id + "\n" + block + "---\n" + body == "---\n" + (id + "\n" + block) + "---\n" + body
    ensures "---\n" + id + "\n---\n" + body == "---\n" + (id + "\n") + "---\n" + body
  {
    assert "\n---\n" == "\n" + "---\n";
  }

  /** The identity line put in front of a block's own lines. */
  ghost predicate Inserted(content: string, sha: string, raw: seq<string>) {
    Framed(content).Some?
    && var (block, body) := Framed(content).value;
    block == Unlines(raw) && IsBlock([NewLine("", sha)] + raw) && Lines(block) == StripAll(raw)
    && Healed(content, sha) == Some(("---\n" + Unlines([NewLine("", sha)] + raw) + "---\n" + body, None))
  }

  lemma InsertIsHealed(content: string, sha: string) returns (raw: seq<string>)
    requires IsSha(sha) && Framed(content).Some? && FirstId(Lines(Framed(content).value.0)).None?
    ensures Inserted(content, sha, raw)
  {
    hide Frame, SplitInclusive, Closes, Lines, Unlines, IsLine, NewLine, IdLine;
    var (block, body) := Framed(content).value;
    var closer;
    raw, closer := FramedShape(content);
    LinesUnlines(raw);
    assert IsLine("") by { EmptyLine(); }
    NewLineIsLine("", sha);
    assert IsBlock([NewLine("", sha)] + raw);
    UnlinesConcat([NewLine("", sha)], raw);
    OneLineText(NewLine("", sha));
    NewLineOfNothing(sha);
    BlockText(IdLine(sha), block, body);
  }

  lemma EmptyLine()
    ensures IsLine("")
  {
  }

  lemma ReplaceIsHealed(content: string, sha: string)
    requires IsSha(sha) && Framed(content).Some? && FirstId(Lines(Framed(content).value.0)).Some?
    requires SoulId(content) != Some(sha)
    ensures var (block, body) := Framed(content).value;
      var lines := Lines(block);
      var i := FirstId(lines).value;
      var now := lines[i := NewLine(lines[i], sha)];
      IsBlock(now) && Healed(content, sha).Some?
        && Healed(content, sha).value.0 == "---\n" + Unlines(now) + "---\n" + body
      && Healed(content, sha).value.1 == (if SoulId(content) == Some("") then None else SoulId(content))
  {
    hide Frame, SplitInclusive, Closes, Lines, Unlines, IsLine, Join, Value, NewLine;
    var (block, body) := Framed(content).value;
    var lines := Lines(block);
    var i := FirstId(lines).value;
    var now := lines[i := NewLine(lines[i], sha)];
    BlockLines(content);
    assert lines[i] in lines;
    NewLineIsLine(lines[i], sha);
    assert forall l <- now :: l in lines || l == NewLine(lines[i], sha);
    hide FirstId, IsBlock;
    JoinUnlines(now);
    BlockText(Join(now, "\n"), "", body);
  }

  lemma BlockLines(content: string)
    requires Framed(content).Some?
    ensures IsBlock(Lines(Framed(content).value.0))
  {
    hide Lines, Framed, IsBlock, Unlines;
    var raw, closer := FramedShape(content);
    assert forall l <- raw :: IsLine(l) by { BlockAreLines(raw); }
    LinesUnlines(raw);
    StripBlock(raw);
  }

  lemma BlockAreLines(lines: seq<string>)
    requires IsBlock(lines)
    ensures forall l <- lines :: IsLine(l)
  {
  }

  /** Healing always ends: the healed document holds the sha, and healing it again does nothing. */
  lemma HealedOnce(content: string, sha: string)
    requires IsSha(sha) && Healed(content, sha).Some?
    ensures SoulId(Healed(content, sha).value.0) == Some(sha)
    ensures Healed(Healed(content, sha).value.0, sha) == None
  {
    hide Frame, SplitInclusive, Closes, Lines, Unlines, IsBlock, Healed, Opened, NewLine, Value, IsIdLine, Framed;
    UntouchedIff(content, sha);
    var out := Healed(content, sha).value.0;
    UntouchedIff(out, sha);
    if Framed(content).None? {
      FreshIsHealed(content, sha);
      WrittenIsHealed([NewLine("", sha)], "\n" + content);
      FirstLineReads([NewLine("", sha)], "", [], sha, out, "\n" + content);
    } else {
      var (block, body) := Framed(content).value;
      var lines := Lines(block);
      if FirstId(lines).None? {
        var raw := InsertIsHealed(content, sha);
        WrittenIsHealed([NewLine("", sha)] + raw, body);
        FirstLineReads([NewLine("", sha)] + raw, "", raw, sha, out, body);
      } else {
        var i := FirstId(lines).value;
        ReplaceIsHealed(content, sha);
        var now := lines[i := NewLine(lines[i], sha)];
        WrittenIsHealed(now, body);
        assert Lines(block)[i] in Lines(block);
        LinesAreLines(block);
        LineAtReads(lines, i, sha, out, body);
      }
    }
  }

  lemma FirstLineReads(now: seq<string>, line: string, raw: seq<string>, sha: string, out: string, body: string)
    requires IsSha(sha) && IsLine(line) && now == [NewLine(line, sha)] + raw && IsHealed(out, now, body)
    ensures SoulId(out) == Some(sha)
  {
    hide Framed, Value, IsIdLine, NewLine, Lines, Unlines;
    NewLineReads(line, sha);
    NewLineIsLine(line, sha);
    assert StripAll(now)[0] == NewLine(line, sha);
  }

  lemma LineAtReads(lines: seq<string>, i: nat, sha: string, out: string, body: string)
    requires IsSha(sha) && FirstId(lines) == Some(i) && IsLine(lines[i])
    requires IsHealed(out, lines[i := NewLine(lines[i], sha)], body)
    ensures SoulId(out) == Some(sha)
  {
    hide Framed, Value, IsIdLine, NewLine, Lines, Unlines, FirstId, StripAll, StripCR;
    var now := lines[i := NewLine(lines[i], sha)];
    NewLineReads(lines[i], sha);
    NewLineIsLine(lines[i], sha);
    FirstIdStripped(now);
    FirstIdIs(now, i);
    assert StripAll(now)[i] == NewLine(lines[i], sha);
  }

  lemma FirstIdIs(lines: seq<string>, i: nat)
    requires i < |lines| && IsIdLine(lines[i]) && forall j :: 0 <= j < i ==> !IsIdLine(lines[j])
    ensures FirstId(lines) == Some(i)
  {
    hide IsIdLine;
    assert lines[i] in lines;
  }

  /** Line by line, only the identity line is touched: the body stays, every other line of the block stays in its
      place, the comment on the identity line stays, and what is reported is the value that was there. */
  lemma OnlyTheLine(content: string, sha: string)
    requires IsSha(sha) && Healed(content, sha).Some? && Framed(content).Some?
    ensures var (block, body) := Framed(content).value;
      var (out, previous) := Healed(content, sha).value;
      var lines := Lines(block);
      Framed(out).Some? && Framed(out).value.1 == body
      && (if FirstId(lines).Some? then
            var i := FirstId(lines).value;
            Lines(Framed(out).value.0) == StripAll(lines)[i := NewLine(lines[i], sha)]
            && Comment(NewLine(lines[i], sha)) == Comment(lines[i])
            && previous == (if SoulId(content) == Some("") then None else SoulId(content))
          else Lines(Framed(out).value.0) == [NewLine("", sha)] + lines && previous == None)
  {
    hide Frame, SplitInclusive, Closes, Lines, Unlines, IsBlock, Healed, Opened, NewLine, Value, IsIdLine, Framed;
    hide Comment;
    UntouchedIff(content, sha);
    var (block, body) := Framed(content).value;
    var lines := Lines(block);
    LinesAreLines(block);
    if FirstId(lines).None? {
      var raw := InsertIsHealed(content, sha);
      WrittenIsHealed([NewLine("", sha)] + raw, body);
      assert IsLine("") by { EmptyLine(); }
      NewLineIsLine("", sha);
      assert StripAll([NewLine("", sha)] + raw) == [NewLine("", sha)] + StripAll(raw);
    } else {
      var i := FirstId(lines).value;
      assert lines[i] in lines;
      ReplaceIsHealed(content, sha);
      var now := lines[i := NewLine(lines[i], sha)];
      WrittenIsHealed(now, body);
      NewLineIsLine(lines[i], sha);
      NewLineReads(lines[i], sha);
      assert StripAll(now) == StripAll(lines)[i := NewLine(lines[i], sha)];
    }
  }

  // ----- byte for byte -----

  predicate EndsInReturn(line: string) {
    line != "" && line[|line| - 1] == '\r'
  }

  /** Two texts made of a shorter or equal head and tail each are equal exactly when head and tail are. */
  lemma ShorterParts(a: string, x: string, b: string, y: string)
    requires |a| <= |b| && |x| <= |y| && (|a| == |b| ==> a == b) && (|x| == |y| ==> x == y)
    ensures |a + "\n" + x| <= |b + "\n" + y|
    ensures a + "\n" + x == b + "\n" + y <==> a == b && x == y
    ensures |a + "\n" + x| == |b + "\n" + y| ==> a == b && x == y
  {
  }

  lemma {:induction false} StripUnlines(raw: seq<string>)
    ensures |Unlines(StripAll(raw))| <= |Unlines(raw)|
    ensures Unlines(StripAll(raw)) == Unlines(raw) <==> forall l <- raw :: !EndsInReturn(l)
    ensures |Unlines(StripAll(raw))| == |Unlines(raw)| ==> Unlines(StripAll(raw)) == Unlines(raw)
  {
    hide StripCR, EndsInReturn;
    if raw != [] {
      StripUnlines(raw[1..]);
      StripOne(raw[0]);
      assert StripAll(raw)[1..] == StripAll(raw[1..]);
      ShorterParts(StripCR(raw[0]), Unlines(StripAll(raw[1..])), raw[0], Unlines(raw[1..]));
      assert raw == [raw[0]] + raw[1..];
    }
  }

  /** No line but number `i` ends in a carriage return. */
  predicate PlainAround(raw: seq<string>, i: nat) {
    forall j :: 0 <= j < |raw| && j != i ==> !EndsInReturn(raw[j])
  }

  lemma {:induction false} StripAround(raw: seq<string>, i: nat, x: string)
    requires i < |raw|
    ensures |Unlines(StripAll(raw)[i := x])| <= |Unlines(raw[i := x])|
    ensures Unlines(StripAll(raw)[i := x]) == Unlines(raw[i := x]) <==> PlainAround(raw, i)
    ensures |Unlines(StripAll(raw)[i := x])| == |Unlines(raw[i := x])| ==>
      Unlines(StripAll(raw)[i := x]) == Unlines(raw[i := x])
  {
    hide StripCR, EndsInReturn, PlainAround;
    var a, b, rest := StripAll(raw)[i := x], raw[i := x], raw[1..];
    assert StripAll(raw)[1..] == StripAll(rest);
    StripOne(raw[0]);
    if i == 0 {
      assert a[1..] == StripAll(rest) && b[1..] == rest;
      StripUnlines(rest);
      AroundFirst(raw);
      ShorterParts(x, Unlines(a[1..]), x, Unlines(b[1..]));
    } else {
      assert a[1..] == StripAll(rest)[i - 1 := x] && b[1..] == rest[i - 1 := x];
      StripAround(rest, i - 1, x);
      AroundNext(raw, i);
      ShorterParts(a[0], Unlines(a[1..]), b[0], Unlines(b[1..]));
    }
  }

  lemma StripOne(l: string)
    ensures |StripCR(l)| <= |l| && (StripCR(l) == l <==> !EndsInReturn(l)) && (|StripCR(l)| == |l| ==> StripCR(l) == l)
  {
  }

  lemma AroundFirst(raw: seq<string>)
    requires raw != []
    ensures PlainAround(raw, 0) <==> forall l <- raw[1..] :: !EndsInReturn(l)
  {
    assert forall j :: 0 <= j < |raw| - 1 ==> raw[1..][j] == raw[j + 1];
    forall j | 1 <= j < |raw|
      ensures raw[j] in raw[1..]
    {
      assert raw[1..][j - 1] == raw[j];
    }
  }

  lemma AroundNext(raw: seq<string>, i: nat)
    requires 0 < i < |raw|
    ensures PlainAround(raw, i) <==> !EndsInReturn(raw[0]) && PlainAround(raw[1..], i - 1)
  {
    assert forall j :: 0 <= j < |raw| - 1 ==> raw[1..][j] == raw[j + 1];
    if PlainAround(raw[1..], i - 1) && !EndsInReturn(raw[0]) {
      forall j | 0 <= j < |raw| && j != i
        ensures !EndsInReturn(raw[j])
      {
        assert j > 0 ==> raw[1..][j - 1] == raw[j];
      }
    }
  }

  /** The block is spliced byte for byte when the line is inserted. When it is replaced, the document is the old
      one with that line replaced and nothing else changed exactly when no other line of the block ends in a
      carriage return. */
  lemma OnlyTheBytesIff(content: string, sha: string) returns (raw: seq<string>)
    requires IsSha(sha) && Healed(content, sha).Some? && Framed(content).Some?
    ensures var (block, body) := Framed(content).value;
      var out, id := Healed(content, sha).value.0, FirstId(Lines(block));
      IsBlock(raw) && block == Unlines(raw) && Lines(block) == StripAll(raw)
      && (id.None? ==> out == "---\n" + Unlines([IdLine(sha)]) + block + "---\n" + body)
      && (id.Some? ==>
            (out == "---\n" + Unlines(raw[id.value := NewLine(Lines(block)[id.value], sha)]) + "---\n" + body)
              == PlainAround(raw, id.value))
  {
    hide Frame, SplitInclusive, Closes, Lines, Unlines, Healed, Opened, NewLine, Value, IsIdLine, Framed, Comment;
    hide IdLine;
    UntouchedIff(content, sha);
    var (block, body) := Framed(content).value;
    var closer;
    raw, closer := FramedShape(content);
    assert forall l <- raw :: IsLine(l) by { BlockAreLines(raw); }
    LinesUnlines(raw);
    match FirstId(Lines(block)) {
      case None => InsertedBytes(content, sha);
      case Some(i) =>
        ReplaceIsHealed(content, sha);
        var x := NewLine(Lines(block)[i], sha);
        StripAround(raw, i, x);
        SameInside("---\n", Unlines(StripAll(raw)[i := x]), Unlines(raw[i := x]), "---\n" + body);
        assert forall t :: "---\n" + t + "---\n" + body == "---\n" + t + ("---\n" + body);
    }
  }

  lemma SameInside(a: string, x: string, y: string, b: string)
    ensures a + x + b == a + y + b <==> x == y
  {
    if a + x + b == a + y + b {
      assert |x| == |y|;
      assert x == (a + x + b)[|a|..|a| + |x|] == (a + y + b)[|a|..|a| + |y|] == y;
    }
  }

  lemma InsertedBytes(content: string, sha: string)
    requires IsSha(sha) && Framed(content).Some? && FirstId(Lines(Framed(content).value.0)).None?
    ensures var (block, body) := Framed(content).value;
      Healed(content, sha).Some?
      && Healed(content, sha).value.0 == "---\n" + Unlines([IdLine(sha)]) + block + "---\n" + body
  {
    hide Frame, SplitInclusive, Closes, Lines, Unlines, NewLine, IdLine;
    var raw := InsertIsHealed(content, sha);
    NewLineOfNothing(sha);
    UnlinesConcat([IdLine(sha)], raw);
    var (block, body) := Framed(content).value;
    assert "---\n" + (Unlines([IdLine(sha)]) + block) == "---\n" + Unlines([IdLine(sha)]) + block;
  }

  /** A document whose identity line is empty and whose other line ends in CRLF: the carriage return is gone. */
  lemma ReturnLost(sha: string)
    requires IsSha(sha)
    ensures Healed("---\n" + Unlines(["x\r", SOUL_ID_KEY + ":"]) + "---\n" + "", sha)
         == Some(("---\n" + Join(["x", IdLine(sha)], "\n") + "\n---\n" + "", None))
  {
    hide Frame, Unlines, Lines, Join, IdLine, Closes, IsIdLine, Value, NewLine, StartsWith, Framed, Opened;
    var raw := ["x\r", SOUL_ID_KEY + ":"];
    EmptyIdLine(sha);
    assert IsBlock(raw) by { OtherLine(); }
    FramedBack(raw, "");
    assert forall l <- raw :: IsLine(l) by { BlockAreLines(raw); }
    LinesUnlines(raw);
    assert StripAll(raw) == ["x", SOUL_ID_KEY + ":"] by { OtherLine(); }
    var lines := ["x", SOUL_ID_KEY + ":"];
    FirstIdIs(lines, 1);
    assert lines[1 := IdLine(sha)] == ["x", IdLine(sha)];
    assert Lines(Unlines(raw)) == lines && FirstId(lines) == Some(1) && Value(lines[1]) != sha;
    assert Opened("---\n" + Unlines(raw) + "---\n" + "").Some? by {
      FramedIsOpened("---\n" + Unlines(raw) + "---\n" + "");
    }
  }

  lemma FramedIsOpened(content: string)
    requires Framed(content).Some?
    ensures Opened(content).Some?
  {
  }

  lemma EmptyIdLine(sha: string)
    ensures var line := SOUL_ID_KEY + ":";
      IsIdLine(line) && Value(line) == "" && NewLine(line, sha) == IdLine(sha) && !IsIdLine("x")
  {
    KeyShape();
    var line := SOUL_ID_KEY + ":";
    assert line[0] == 's' && TrimStart(line) == line && line[16] == ':' && line[..16] == SOUL_ID_KEY;
    IndexOfUnique(line, ':', 16);
    assert AfterKey(line) == "";
    assert IdLine(sha) + "" == IdLine(sha);
    assert TrimStart("x") == "x";
  }

  lemma OtherLine()
    ensures var raw := ["x\r", SOUL_ID_KEY + ":"]; IsBlock(raw) && StripAll(raw) == ["x", SOUL_ID_KEY + ":"]
  {
    KeyShape();
    var line := SOUL_ID_KEY + ":";
    assert line[0] == 's' && line[16] == ':' && line[|line| - 1] == ':';
    NotAFence(line);
    assert TrimEnd("x\r") == "x" by {
      assert "x\r"[..1] == "x";
    }
    assert FENCE[0] == '-';
    assert "x\r"[..1] == "x";
  }

  // ----- how the line may be written -----

  /** The identity line is known by its key and the colon behind it, however far it is indented. */
  lemma {:induction false} IdLineIff(indent: string, rest: string)
    requires (forall c <- indent :: IsWhite(c)) && (rest == "" || !IsWhite(rest[0]))
    ensures IsIdLine(indent + rest) <==> StartsWith(rest, "soul.Soul.soulId:")
  {
    IndentTrims(indent, rest);
    assert SOUL_ID_KEY + ":" == "soul.Soul.soulId:";
  }

  lemma {:induction false} IndentTrims(indent: string, rest: string)
    requires (forall c <- indent :: IsWhite(c)) && (rest == "" || !IsWhite(rest[0]))
    ensures TrimStart(indent + rest) == rest
  {
    if indent == "" {
      assert indent + rest == rest;
    } else {
      assert (indent + rest)[1..] == indent[1..] + rest;
      IndentTrims(indent[1..], rest);
    }
  }

  /** A value of its own: something that white space, quotes and a comment around it do not belong to. */
  predicate IsOwnValue(v: string) {
    v != "" && '#' !in v && IsTrimmed(v) && v[0] !in {'"', '\''} && v[|v| - 1] !in {'"', '\''}
  }

  /** The value is read without the white space around it, without quotes of either kind and without a comment. */
  lemma WrittenValueReads(indent: string, before: string, quote: string, v: string, after: string, comment: string)
    requires (forall c <- indent :: IsWhite(c)) && (forall c <- before :: IsWhite(c))
    requires (forall c <- after :: IsWhite(c)) && IsOwnValue(v) && (comment == "" || comment[0] == '#')
    requires quote == "" || quote == "\"" || quote == "'"
    ensures Value(indent + ("soul.Soul.soulId:" + (before + (quote + v + quote) + after + comment))) == v
  {
    hide Trim, TrimMatches;
    var quoted := quote + v + quote;
    var text := before + quoted + after;
    var key := "soul.Soul.soulId";
    var line := indent + ("soul.Soul.soulId:" + (text + comment));
    assert "soul.Soul.soulId:" == key + ":";
    ColonAt(indent, text + comment);
    assert AfterKey(line) == text + comment;
    assert '#' !in text by { NoHash(before, quote, v, after); }
    if comment != "" {
      assert (text + comment)[|text|] == '#' && (text + comment)[..|text|] == text;
      IndexOfUnique(text + comment, '#', |text|);
    } else {
      assert text + comment == text;
    }
    assert IsTrimmed(quoted) by { QuotedIsTrimmed(quote, v); }
    TrimPadded(before, quoted, after);
    QuotesComeOff(quote, v);
  }

  lemma ColonAt(indent: string, rest: string)
    requires forall c <- indent :: IsWhite(c)
    ensures AfterKey(indent + ("soul.Soul.soulId:" + rest)) == rest
  {
    var head := indent + "soul.Soul.soulId";
    var line := indent + ("soul.Soul.soulId:" + rest);
    assert "soul.Soul.soulId:" == "soul.Soul.soulId" + ":";
    assert line == head + ":" + rest;
    assert ':' !in "soul.Soul.soulId" by { KeyShape(); }
    assert ':' !in head && line[..|head|] == head && line[|head|] == ':' && line[|head| + 1..] == rest;
    IndexOfUnique(line, ':', |head|);
  }

  lemma NoHash(before: string, quote: string, v: string, after: string)
    requires (forall c <- before :: IsWhite(c)) && (forall c <- after :: IsWhite(c)) && '#' !in v
    requires quote == "" || quote == "\"" || quote == "'"
    ensures '#' !in before + (quote + v + quote) + after
  {
  }

  lemma QuotedIsTrimmed(quote: string, v: string)
    requires IsOwnValue(v) && (quote == "" || quote == "\"" || quote == "'")
    ensures IsTrimmed(quote + v + quote)
  {
    var s := quote + v + quote;
    assert s[0] == (if quote == "" then v[0] else quote[0]);
    assert s[|s| - 1] == (if quote == "" then v[|v| - 1] else quote[0]);
  }

  lemma QuotesComeOff(quote: string, v: string)
    requires IsOwnValue(v) && (quote == "" || quote == "\"" || quote == "'")
    ensures TrimMatches(TrimMatches(quote + v + quote, '"'), '\'') == v
  {
    var s := quote + v + quote;
    NothingToTake(v, '"');
    NothingToTake(v, '\'');
    if quote == "" {
      assert s == v;
    } else {
      OnePairComesOff(v, quote[0]);
      assert s == [quote[0]] + v + [quote[0]];
      if quote == "'" {
        NothingToTake(s, '"');
      }
    }
  }

  lemma NothingToTake(s: string, c: char)
    requires s != "" && s[0] != c && s[|s| - 1] != c
    ensures TrimMatches(s, c) == s
  {
  }

  lemma OnePairComesOff(v: string, c: char)
    requires v != "" && v[0] != c && v[|v| - 1] != c
    ensures TrimMatches([c] + v + [c], c) == v
  {
    NothingToTake(v, c);
    assert ([c] + v + [c])[1..] == v + [c];
    assert (v + [c])[..|v|] == v && (v + [c])[0] == v[0];
  }

  /** A document that holds the id already, in whatever writing, is left as it is; the first identity line counts. */
  lemma HeldIdStays(content: string, i: nat, indent: string, before: string, quote: string, v: string, after: string,
                    comment: string)
    requires Framed(content).Some? && i < |Lines(Framed(content).value.0)|
    requires forall j :: 0 <= j < i ==> !IsIdLine(Lines(Framed(content).value.0)[j])
    requires Lines(Framed(content).value.0)[i]
      == indent + ("soul.Soul.soulId:" + (before + (quote + v + quote) + after + comment))
    requires (forall c <- indent :: IsWhite(c)) && (forall c <- before :: IsWhite(c))
    requires (forall c <- after :: IsWhite(c)) && IsOwnValue(v) && (comment == "" || comment[0] == '#')
    requires quote == "" || quote == "\"" || quote == "'"
    ensures SoulId(content) == Some(v) && Healed(content, v) == None
  {
    hide Frame, Lines, Value, IsIdLine;
    var lines := Lines(Framed(content).value.0);
    IdLineIff(indent, "soul.Soul.soulId:" + (before + (quote + v + quote) + after + comment));
    WrittenValueReads(indent, before, quote, v, after, comment);
    FirstIdIs(lines, i);
    assert Opened(content).Some?;
  }
}
