/** The managed section of the pre-commit hook (src/hooks.rs). The shell lines between the markers are a
    parameter: nothing here depends on what they say. */
module Hooks {
  import opened Wrappers
  import opened Text

  const MARKER_START := "# --- git-lex managed " + "(do not edit this section) ---"
  const MARKER_END := "# --- end git-lex managed ---"
  const SHEBANG := "#!/bin/sh"
  const BASH := "#!/bin/bash"

  const LEGACY: set<string> := {
    "git-lex extract", "git lex extract", "git add .lex/extract/ 2>/dev/null", "git add .lex/extract/",
    "git-lex validate || exit 1", "git lex validate || exit 1"}

  predicate IsStart(line: string) {
    Trim(line) == MARKER_START
  }

  predicate IsEnd(line: string) {
    Trim(line) == MARKER_END
  }

  predicate IsMarker(line: string) {
    IsStart(line) || IsEnd(line)
  }

  function Section(body: seq<string>): seq<string> {
    [MARKER_START] + body + [MARKER_END]
  }

  /** Shell lines that may stand between the markers. */
  predicate GoodBody(body: seq<string>) {
    forall l <- body :: IsLine(l) && StripCR(l) == l && !IsMarker(l)
  }

  function Count(lines: seq<string>, isMarker: string -> bool): nat {
    if lines == [] then 0 else (if isMarker(lines[0]) then 1 else 0) + Count(lines[1..], isMarker)
  }

  /** What the section replacer keeps and writes, line by line. */
  function Replaced(lines: seq<string>, inSection: bool, section: seq<string>): seq<string> {
    if lines == [] then []
    else if IsStart(lines[0]) then section + Replaced(lines[1..], true, section)
    else if IsEnd(lines[0]) then Replaced(lines[1..], false, section)
    else (if inSection then [] else [lines[0]]) + Replaced(lines[1..], inSection, section)
  }

  function Scrubbed(lines: seq<string>): seq<string> {
    if lines == [] then [] else (if Trim(lines[0]) in LEGACY then [] else [lines[0]]) + Scrubbed(lines[1..])
  }

  datatype Damage = Damage(starts: nat, ends: nat)

  predicate OursAlone(text: string) {
    Trim(text) == "" || Trim(text) == SHEBANG || Trim(text) == BASH
  }

  /** The lines of the hook after an installation. */
  function InstalledLines(lines: seq<string>, body: seq<string>): seq<string> {
    if Count(lines, IsStart) == 1 then Replaced(lines, false, Section(body))
    else if OursAlone(Unlines(Scrubbed(lines))) then [SHEBANG] + Section(body)
    else Scrubbed(lines) + [""] + Section(body)
  }

  predicate Damaged(lines: seq<string>) {
    Count(lines, IsStart) != Count(lines, IsEnd) || Count(lines, IsStart) > 1
  }

  function Installed(existing: string, body: seq<string>): Result<string, Damage> {
    var lines := Lines(existing);
    if Damaged(lines) then Err(Damage(Count(lines, IsStart), Count(lines, IsEnd)))
    else Ok(Unlines(InstalledLines(lines, body)))
  }

  // ----- the program -----

  method ReplaceManagedSection(content: string, replacement: string,
                               ghost section: seq<string>) returns (result: string)
    requires replacement == "" <==> section == []
    requires section != [] ==> replacement + "\n" == Unlines(section)
    ensures result == Unlines(Replaced(Lines(content), false, section))
  {
    result := "";
    var inSection := false;
    var lines := Lines(content);
    assert lines[0..] == lines;
    for i := 0 to |lines|
      invariant result + Unlines(Replaced(lines[i..], inSection, section)) == Unlines(Replaced(lines, false, section))
    {
      ghost var rest := lines[i + 1..];
      ReplacedStep(lines, i, inSection, section);
      if IsStart(lines[i]) {
        Pushed(result, section, Replaced(rest, true, section));
        inSection := true;
        if replacement != "" {
          Regrouped(result, replacement, "\n");
          result := result + replacement;
          result := result + "\n";
        }
        continue;
      }
      if IsEnd(lines[i]) {
        inSection := false;
        continue;
      }
      if !inSection {
        Pushed(result, [lines[i]], Replaced(rest, false, section));
        OneLineText(lines[i]);
        Regrouped(result, lines[i], "\n");
        result := result + lines[i];
        result := result + "\n";
      }
    }
    assert lines[|lines|..] == [] && result + "" == result;
  }

  lemma ReplacedStep(lines: seq<string>, i: nat, inSection: bool, section: seq<string>)
    requires i < |lines|
    ensures Replaced(lines[i..], inSection, section) ==
      if IsStart(lines[i]) then section + Replaced(lines[i + 1..], true, section)
      else if IsEnd(lines[i]) then Replaced(lines[i + 1..], false, section)
      else if inSection then Replaced(lines[i + 1..], inSection, section)
      else [lines[i]] + Replaced(lines[i + 1..], inSection, section)
  {
    hide IsStart, IsEnd;
    assert lines[i..][1..] == lines[i + 1..];
    assert [] + Replaced(lines[i + 1..], inSection, section) == Replaced(lines[i + 1..], inSection, section);
  }

  lemma Pushed(text: string, lines: seq<string>, rest: seq<string>)
    ensures text + Unlines(lines + rest) == (text + Unlines(lines)) + Unlines(rest)
    ensures lines == [] ==> text + Unlines(lines) == text
  {
    UnlinesConcat(lines, rest);
    assert text + (Unlines(lines) + Unlines(rest)) == (text + Unlines(lines)) + Unlines(rest);
  }

  lemma Regrouped(a: string, b: string, c: string)
    ensures (a + b) + c == a + (b + c)
  {
  }

  /** `MANAGED_SECTION` */
  function SectionText(body: seq<string>): string {
    Join(Section(body), "\n")
  }

  lemma SectionTextLines(body: seq<string>)
    ensures SectionText(body) != "" && SectionText(body) + "\n" == Unlines(Section(body))
  {
    JoinUnlines(Section(body));
    StartsLong(body);
  }

  lemma StartsLong(body: seq<string>)
    ensures SectionText(body) != ""
  {
    assert Section(body)[0] == MARKER_START && |Section(body)| > 1;
  }

  lemma SectionAfter(pre: string, lines: seq<string>, body: seq<string>)
    requires pre == Unlines(lines)
    ensures pre + SectionText(body) + "\n" == Unlines(lines + Section(body))
  {
    SectionTextLines(body);
    UnlinesConcat(lines, Section(body));
    assert pre + SectionText(body) + "\n" == pre + (SectionText(body) + "\n");
  }

  /** The text part of `install_hook`. */
  method InstallHook(existing: string, body: seq<string>) returns (r: Result<string, Damage>)
    ensures r == Installed(existing, body)
  {
    var lines := Lines(existing);
    var starts, ends := Count(lines, IsStart), Count(lines, IsEnd);
    if starts != ends || starts > 1 {
      return Err(Damage(starts, ends));
    }
    var section := SectionText(body);
    SectionTextLines(body);
    OneLineText(SHEBANG);
    SectionAfter(SHEBANG + "\n", [SHEBANG], body);
    EmptyHook();
    if existing == "" {
      return Ok(SHEBANG + "\n" + section + "\n");
    } else if starts == 1 {
      assert Section(body) != [] by { SectionNotEmpty(body); }
      var text := ReplaceManagedSection(existing, section, Section(body));
      return Ok(text);
    }
    var scrubbed := Unlines(Scrubbed(lines));
    if OursAlone(scrubbed) {
      return Ok(SHEBANG + "\n" + section + "\n");
    }
    EndsWithBreak(Scrubbed(lines));
    var content := scrubbed;
    assert content == "" ==> OursAlone(content) by { NothingIsOurs(); }
    if content[|content| - 1] != '\n' {
      content := content + "\n";
    }
    content := content + "\n";
    UnlinesConcat(Scrubbed(lines), [""]);
    OneLineText("");
    assert content == Unlines(Scrubbed(lines) + [""]) by { assert "" + "\n" == "\n"; }
    SectionAfter(content, Scrubbed(lines) + [""], body);
    content := content + section;
    content := content + "\n";
    return Ok(content);
  }

  lemma NothingIsOurs()
    ensures OursAlone("")
  {
  }

  lemma SectionNotEmpty(body: seq<string>)
    ensures Section(body) != []
  {
  }

  lemma EmptyHook()
    ensures Lines("") == [] && Count([], IsStart) == 0 && Scrubbed([]) == [] && Unlines([]) == "" && OursAlone("")
  {
  }

  lemma {:induction false} EndsWithBreak(lines: seq<string>)
    ensures Unlines(lines) != "" ==> Unlines(lines)[|Unlines(lines)| - 1] == '\n'
  {
    if lines != [] {
      EndsWithBreak(lines[1..]);
    }
  }

  // ----- markers -----

  lemma MarkersDiffer(line: string)
    ensures !(IsStart(line) && IsEnd(line))
  {
    assert |MARKER_START| == 52 && |MARKER_END| == 29;
  }

  lemma MarkersAreLines()
    ensures IsLine(MARKER_START) && IsLine(MARKER_END) && IsLine(SHEBANG)
    ensures StripCR(MARKER_START) == MARKER_START && StripCR(MARKER_END) == MARKER_END && StripCR(SHEBANG) == SHEBANG
    ensures IsStart(MARKER_START) && IsEnd(MARKER_END) && !IsMarker(SHEBANG) && !IsMarker("")
  {
    hide IsLine, StripCR, Trim;
    StartIsLine();
    EndIsLine();
    ShebangIsLine();
  }

  lemma StartIsLine()
    ensures IsLine(MARKER_START) && StripCR(MARKER_START) == MARKER_START && IsStart(MARKER_START)
  {
    hide Trim;
    assert |MARKER_START| == 52 && MARKER_START[0] == '#' && MARKER_START[51] == '-';
    TrimmedStays(MARKER_START);
  }

  lemma EndIsLine()
    ensures IsLine(MARKER_END) && StripCR(MARKER_END) == MARKER_END && IsEnd(MARKER_END)
  {
    hide Trim;
    assert |MARKER_END| == 29 && MARKER_END[0] == '#' && MARKER_END[28] == '-';
    TrimmedStays(MARKER_END);
  }

  lemma ShebangIsLine()
    ensures IsLine(SHEBANG) && StripCR(SHEBANG) == SHEBANG && !IsMarker(SHEBANG) && !IsMarker("")
  {
    hide Trim;
    assert |SHEBANG| == 9 && SHEBANG[0] == '#' && SHEBANG[8] == 'h';
    TrimmedStays(SHEBANG);
    TrimmedStays("");
    assert |MARKER_START| == 52 && |MARKER_END| == 29;
  }

  predicate NoMarkers(lines: seq<string>) {
    forall l <- lines :: !IsMarker(l)
  }

  lemma {:induction false} CountConcat(a: seq<string>, b: seq<string>, isMarker: string -> bool)
    ensures Count(a + b, isMarker) == Count(a, isMarker) + Count(b, isMarker)
  {
    if a == [] {
      assert a + b == b;
    } else {
      assert (a + b)[1..] == a[1..] + b;
      CountConcat(a[1..], b, isMarker);
    }
  }

  lemma {:induction false} NoMarkersCount(lines: seq<string>)
    requires NoMarkers(lines)
    ensures Count(lines, IsStart) == 0 && Count(lines, IsEnd) == 0
  {
    hide IsStart, IsEnd;
    if lines != [] {
      assert lines[0] in lines;
      NoMarkersCount(lines[1..]);
    }
  }

  lemma SectionCount(body: seq<string>)
    requires GoodBody(body)
    ensures Count(Section(body), IsStart) == 1 && Count(Section(body), IsEnd) == 1
  {
    hide IsStart, IsEnd;
    MarkersAreLines();
    MarkersDiffer(MARKER_START);
    MarkersDiffer(MARKER_END);
    NoMarkersCount(body);
    CountConcat([MARKER_START] + body, [MARKER_END], IsStart);
    CountConcat([MARKER_START] + body, [MARKER_END], IsEnd);
    CountConcat([MARKER_START], body, IsStart);
    CountConcat([MARKER_START], body, IsEnd);
  }

  // ----- the replacer on the shapes it meets -----

  lemma {:induction false} ReplacedOutside(pre: seq<string>, rest: seq<string>, inSection: bool, section: seq<string>)
    requires NoMarkers(pre)
    ensures Replaced(pre + rest, inSection, section)
      == (if inSection then [] else pre) + Replaced(rest, inSection, section)
  {
    hide IsStart, IsEnd;
    if pre == [] {
      assert pre + rest == rest;
    } else {
      assert pre[0] in pre;
      assert (pre + rest)[1..] == pre[1..] + rest;
      ReplacedOutside(pre[1..], rest, inSection, section);
    }
  }

  lemma ReplacedAll(pre: seq<string>, inSection: bool, section: seq<string>)
    requires NoMarkers(pre)
    ensures Replaced(pre, inSection, section) == if inSection then [] else pre
  {
    ReplacedOutside(pre, [], inSection, section);
    assert pre + [] == pre;
  }

  /** A section in its place is replaced there, and every line around it is kept, in order. */
  lemma OrderedSectionReplaced(pre: seq<string>, start: string, mid: seq<string>, end: string, post: seq<string>,
                               section: seq<string>)
    requires NoMarkers(pre) && NoMarkers(mid) && NoMarkers(post) && IsStart(start) && IsEnd(end)
    ensures Replaced(pre + ([start] + (mid + ([end] + post))), false, section) == pre + section + post
  {
    hide IsStart, IsEnd, NoMarkers;
    MarkersDiffer(end);
    var r2 := [end] + post;
    var r1 := [start] + (mid + r2);
    assert r2[1..] == post && r1[1..] == mid + r2;
    ReplacedOutside(pre, r1, false, section);
    ReplacedOutside(mid, r2, true, section);
    ReplacedAll(post, false, section);
  }

  /** With the markers the wrong way round the check still counts one of each, and then everything after the
      start marker is dropped. */
  lemma ReversedMarkersLoseTail(pre: seq<string>, end: string, mid: seq<string>, start: string, post: seq<string>,
                                section: seq<string>)
    requires NoMarkers(pre) && NoMarkers(mid) && NoMarkers(post) && IsStart(start) && IsEnd(end)
    ensures Replaced(pre + ([end] + (mid + ([start] + post))), false, section) == pre + mid + section
    ensures !Damaged(pre + ([end] + (mid + ([start] + post))))
  {
    hide IsStart, IsEnd, NoMarkers;
    MarkersDiffer(end);
    MarkersDiffer(start);
    var r2 := [start] + post;
    var r1 := [end] + (mid + r2);
    assert r2[1..] == post && r1[1..] == mid + r2;
    ReplacedOutside(pre, r1, false, section);
    ReplacedOutside(mid, r2, false, section);
    ReplacedAll(post, true, section);
    NoMarkersCount(pre);
    NoMarkersCount(mid);
    NoMarkersCount(post);
    CountConcat(pre, r1, IsStart);
    CountConcat(pre, r1, IsEnd);
    CountConcat(mid, r2, IsStart);
    CountConcat(mid, r2, IsEnd);
  }

  ghost predicate Ordered(lines: seq<string>, pre: seq<string>, mid: seq<string>, post: seq<string>) {
    exists s, e :: IsStart(s) && IsEnd(e) && lines == pre + ([s] + (mid + ([e] + post)))
  }

  ghost predicate Reversed(lines: seq<string>, pre: seq<string>, mid: seq<string>, post: seq<string>) {
    exists s, e :: IsStart(s) && IsEnd(e) && lines == pre + ([e] + (mid + ([s] + post)))
  }

  lemma {:induction false} TakeMarker(lines: seq<string>,
                                      isMarker: string -> bool) returns (pre: seq<string>, post: seq<string>, l: string)
    requires Count(lines, isMarker) == 1
    ensures lines == pre + ([l] + post) && isMarker(l) && Count(pre, isMarker) == 0 && Count(post, isMarker) == 0
  {
    if isMarker(lines[0]) {
      pre, post, l := [], lines[1..], lines[0];
    } else {
      pre, post, l := TakeMarker(lines[1..], isMarker);
      pre := [lines[0]] + pre;
      assert lines == [lines[0]] + lines[1..];
    }
  }

  lemma TakeEnd(pre: seq<string>, s: string, post: seq<string>)
    requires IsStart(s) && Count(pre, IsStart) == 0 && Count(post, IsStart) == 0
    requires Count(pre + ([s] + post), IsEnd) == 1
    ensures exists a, mid, b ::
      (Ordered(pre + ([s] + post), a, mid, b) || Reversed(pre + ([s] + post), a, mid, b))
      && NoMarkers(a) && NoMarkers(mid) && NoMarkers(b)
  {
    hide IsStart, IsEnd, NoMarkers, Count;
    MarkersDiffer(s);
    CountMarked(pre, s, post, IsEnd);
    if Count(post, IsEnd) == 1 {
      var mid, b, e := TakeMarker(post, IsEnd);
      assert Ordered(pre + ([s] + post), pre, mid, b);
      CountMarked(mid, e, b, IsStart);
      UnmarkedLines(pre);
      UnmarkedLines(mid);
      UnmarkedLines(b);
    } else {
      var a, mid, e := TakeMarker(pre, IsEnd);
      assert pre + ([s] + post) == a + ([e] + (mid + ([s] + post)));
      assert Reversed(pre + ([s] + post), a, mid, post);
      CountMarked(a, e, mid, IsStart);
      UnmarkedLines(a);
      UnmarkedLines(mid);
      UnmarkedLines(post);
    }
  }

  lemma CountMarked(pre: seq<string>, l: string, post: seq<string>, isMarker: string -> bool)
    ensures Count(pre + ([l] + post), isMarker)
      == Count(pre, isMarker) + (if isMarker(l) then 1 else 0) + Count(post, isMarker)
  {
    CountConcat(pre, [l] + post, isMarker);
    assert ([l] + post)[1..] == post;
  }

  predicate HasEnd(lines: seq<string>) {
    exists l <- lines :: IsEnd(l)
  }

  function AfterEnd(lines: seq<string>): (rest: seq<string>)
    ensures |rest| <= |lines|
  {
    if lines == [] then [] else if IsEnd(lines[0]) then lines[1..] else AfterEnd(lines[1..])
  }

  /** The user's own lines: all but the markers and what stands between a start marker and an end marker after it. */
  function UserLines(lines: seq<string>): seq<string>
    decreases |lines|
  {
    if lines == [] then []
    else if IsStart(lines[0]) then UserLines(if HasEnd(lines[1..]) then AfterEnd(lines[1..]) else lines[1..])
    else if IsEnd(lines[0]) then UserLines(lines[1..])
    else [lines[0]] + UserLines(lines[1..])
  }

  lemma {:induction false} UserOutside(a: seq<string>, b: seq<string>)
    requires NoMarkers(a)
    ensures UserLines(a + b) == a + UserLines(b)
  {
    hide IsStart, IsEnd, HasEnd, AfterEnd;
    if a == [] {
      assert a + b == b;
    } else {
      assert a[0] in a && forall l <- a[1..] :: l in a;
      assert (a + b)[1..] == a[1..] + b;
      UserOutside(a[1..], b);
    }
  }

  lemma {:induction false} EndFound(mid: seq<string>, e: string, post: seq<string>)
    requires NoMarkers(mid) && IsEnd(e)
    ensures HasEnd(mid + ([e] + post)) && AfterEnd(mid + ([e] + post)) == post
  {
    hide IsStart, IsEnd;
    var lines := mid + ([e] + post);
    assert lines[|mid|] == e;
    if mid == [] {
      assert lines == [e] + post;
    } else {
      assert mid[0] in mid && forall l <- mid[1..] :: l in mid;
      assert lines[1..] == mid[1..] + ([e] + post);
      EndFound(mid[1..], e, post);
    }
  }

  lemma OrderedUserLines(pre: seq<string>, s: string, mid: seq<string>, e: string, post: seq<string>)
    requires NoMarkers(pre) && NoMarkers(mid) && NoMarkers(post) && IsStart(s) && IsEnd(e)
    ensures UserLines(pre + ([s] + (mid + ([e] + post)))) == pre + post
  {
    hide IsStart, IsEnd, NoMarkers, HasEnd, AfterEnd;
    var rest := [s] + (mid + ([e] + post));
    UserOutside(pre, rest);
    assert rest[1..] == mid + ([e] + post);
    EndFound(mid, e, post);
    UserOutside(post, []);
    assert post + [] == post;
  }

  lemma ReversedUserLines(pre: seq<string>, e: string, mid: seq<string>, s: string, post: seq<string>)
    requires NoMarkers(pre) && NoMarkers(mid) && NoMarkers(post) && IsStart(s) && IsEnd(e)
    ensures UserLines(pre + ([e] + (mid + ([s] + post)))) == pre + mid + post
  {
    hide IsStart, IsEnd, NoMarkers, AfterEnd;
    MarkersDiffer(e);
    var last := [s] + post;
    var rest := [e] + (mid + last);
    assert rest[1..] == mid + last && last[1..] == post;
    UserOutside(pre, rest);
    UserOutside(mid, last);
    UserOutside(post, []);
    assert !HasEnd(post) by { NoEndIn(post); }
    assert post + [] == post;
    assert pre + (mid + post) == pre + mid + post;
  }

  lemma NoEndIn(lines: seq<string>)
    requires NoMarkers(lines)
    ensures !HasEnd(lines)
  {
  }

  /** The two shapes of a hook with one marker of each kind: the section in its place, or the markers reversed. */
  ghost predicate ShapedAs(lines: seq<string>, section: seq<string>, pre: seq<string>, mid: seq<string>,
                           post: seq<string>) {
    (Ordered(lines, pre, mid, post) && Replaced(lines, false, section) == pre + section + post
     && UserLines(lines) == pre + post)
    || (Reversed(lines, pre, mid, post) && Replaced(lines, false, section) == pre + mid + section
        && UserLines(lines) == pre + mid + post)
  }

  /** A hook with one marker of each kind is one of two shapes: in the first every line of the user's is kept,
      in the second those after the start marker are lost. */
  lemma OneOfEachMarker(lines: seq<string>, section: seq<string>)
    requires Count(lines, IsStart) == 1 && Count(lines, IsEnd) == 1
    ensures exists pre, mid, post :: ShapedAs(lines, section, pre, mid, post)
  {
    hide IsStart, IsEnd, NoMarkers, Count, Replaced, UserLines;
    var p, q, l := TakeMarker(lines, IsStart);
    TakeEnd(p, l, q);
    var pre, mid, post :| (Ordered(lines, pre, mid, post) || Reversed(lines, pre, mid, post))
      && NoMarkers(pre) && NoMarkers(mid) && NoMarkers(post);
    if Ordered(lines, pre, mid, post) {
      var s, e :| IsStart(s) && IsEnd(e) && lines == pre + ([s] + (mid + ([e] + post)));
      OrderedSectionReplaced(pre, s, mid, e, post, section);
      OrderedUserLines(pre, s, mid, e, post);
    } else {
      var s, e :| IsStart(s) && IsEnd(e) && lines == pre + ([e] + (mid + ([s] + post)));
      ReversedMarkersLoseTail(pre, e, mid, s, post, section);
      ReversedUserLines(pre, e, mid, s, post);
    }
    assert ShapedAs(lines, section, pre, mid, post);
  }

  /** The start marker comes before the end marker, or is the last line. */
  predicate StartFirstOrLast(lines: seq<string>) {
    lines != []
      && (IsStart(lines[|lines| - 1]) || (!IsEnd(lines[0]) && (IsStart(lines[0]) || StartFirstOrLast(lines[1..]))))
  }

  lemma {:induction false} StartFirst(pre: seq<string>, s: string, rest: seq<string>)
    requires NoMarkers(pre) && IsStart(s)
    ensures StartFirstOrLast(pre + ([s] + rest))
  {
    hide IsStart, IsEnd;
    var lines := pre + ([s] + rest);
    MarkersDiffer(s);
    if pre == [] {
      assert lines[0] == s;
    } else {
      assert pre[0] in pre && forall l <- pre[1..] :: l in pre;
      assert lines[0] == pre[0] && lines[1..] == pre[1..] + ([s] + rest);
      StartFirst(pre[1..], s, rest);
    }
  }

  lemma {:induction false} EndFirst(pre: seq<string>, e: string, rest: seq<string>)
    requires NoMarkers(pre) && IsEnd(e) && rest != []
    ensures StartFirstOrLast(pre + ([e] + rest)) <==> IsStart(rest[|rest| - 1])
  {
    hide IsStart, IsEnd;
    var lines := pre + ([e] + rest);
    assert lines[|lines| - 1] == rest[|rest| - 1];
    if pre == [] {
      assert lines[0] == e;
    } else {
      assert pre[0] in pre && forall l <- pre[1..] :: l in pre;
      assert lines[0] == pre[0] && lines[1..] == pre[1..] + ([e] + rest);
      EndFirst(pre[1..], e, rest);
    }
  }

  lemma OrderedLosesNothing(pre: seq<string>, s: string, mid: seq<string>, e: string, post: seq<string>)
    requires NoMarkers(pre) && NoMarkers(mid) && NoMarkers(post) && IsStart(s) && IsEnd(e)
    ensures var lines := pre + ([s] + (mid + ([e] + post)));
      Replaced(lines, false, []) == UserLines(lines) && StartFirstOrLast(lines)
  {
    hide IsStart, IsEnd, NoMarkers, Replaced, UserLines, StartFirstOrLast;
    OrderedSectionReplaced(pre, s, mid, e, post, []);
    OrderedUserLines(pre, s, mid, e, post);
    StartFirst(pre, s, mid + ([e] + post));
    assert pre + [] + post == pre + post;
  }

  lemma ReversedLosesIff(pre: seq<string>, e: string, mid: seq<string>, s: string, post: seq<string>)
    requires NoMarkers(pre) && NoMarkers(mid) && NoMarkers(post) && IsStart(s) && IsEnd(e)
    ensures var lines := pre + ([e] + (mid + ([s] + post)));
      Replaced(lines, false, []) == UserLines(lines) <==> StartFirstOrLast(lines)
  {
    hide IsStart, IsEnd, NoMarkers, Replaced, UserLines, StartFirstOrLast;
    ReversedMarkersLoseTail(pre, e, mid, s, post, []);
    ReversedUserLines(pre, e, mid, s, post);
    EndFirst(pre, e, mid + ([s] + post));
    TailLost(pre, mid, post);
    LastOfTail(mid, s, post);
    NoStartIn(post);
  }

  lemma LastOfTail(mid: seq<string>, s: string, post: seq<string>)
    ensures var rest := mid + ([s] + post); rest[|rest| - 1] == if post == [] then s else post[|post| - 1]
  {
  }

  /** With one marker of each kind, replacing the section loses no line of the user's exactly when the start
      marker comes before the end marker or is the last line. */
  lemma NothingLostIff(lines: seq<string>)
    requires Count(lines, IsStart) == 1 && Count(lines, IsEnd) == 1
    ensures Replaced(lines, false, []) == UserLines(lines) <==> StartFirstOrLast(lines)
  {
    hide IsStart, IsEnd, NoMarkers, Count, Replaced, UserLines, StartFirstOrLast;
    var p, q, l := TakeMarker(lines, IsStart);
    TakeEnd(p, l, q);
    var pre, mid, post :| (Ordered(lines, pre, mid, post) || Reversed(lines, pre, mid, post))
      && NoMarkers(pre) && NoMarkers(mid) && NoMarkers(post);
    if Ordered(lines, pre, mid, post) {
      var s, e :| IsStart(s) && IsEnd(e) && lines == pre + ([s] + (mid + ([e] + post)));
      OrderedLosesNothing(pre, s, mid, e, post);
    } else {
      var s, e :| IsStart(s) && IsEnd(e) && lines == pre + ([e] + (mid + ([s] + post)));
      ReversedLosesIff(pre, e, mid, s, post);
    }
  }

  lemma TailLost(pre: seq<string>, mid: seq<string>, post: seq<string>)
    ensures pre + mid + [] == pre + mid + post <==> post == []
  {
  }

  lemma NoStartIn(lines: seq<string>)
    requires NoMarkers(lines)
    ensures forall l <- lines :: !IsStart(l)
  {
  }

  /** The kept lines, with the new section where the old one began. */
  lemma {:induction false} ReplacedShape(lines: seq<string>, inSection: bool, section: seq<string>)
    returns (pre: seq<string>, post: seq<string>)
    requires Count(lines, IsStart) == 1
    ensures Replaced(lines, inSection, section) == pre + section + post
    ensures Replaced(lines, inSection, []) == pre + post
  {
    hide IsStart, IsEnd;
    if IsStart(lines[0]) {
      pre, post := [], Replaced(lines[1..], true, []);
      ReplacedNoStart(lines[1..], true, section);
    } else if IsEnd(lines[0]) {
      pre, post := ReplacedShape(lines[1..], false, section);
    } else {
      pre, post := ReplacedShape(lines[1..], inSection, section);
      Push(lines[0], pre, section, post);
      if !inSection {
        pre := [lines[0]] + pre;
      }
    }
  }

  lemma Push(line: string, pre: seq<string>, section: seq<string>, post: seq<string>)
    ensures [line] + (pre + section + post) == ([line] + pre) + section + post
    ensures [line] + (pre + post) == ([line] + pre) + post
  {
  }

  lemma ReplacedNoStart(lines: seq<string>, inSection: bool, section: seq<string>)
    requires Count(lines, IsStart) == 0
    ensures Replaced(lines, inSection, section) == Replaced(lines, inSection, [])
  {
    hide IsStart, IsEnd;
  }

  lemma {:induction false} ReplacedIsKept(lines: seq<string>, inSection: bool)
    ensures NoMarkers(Replaced(lines, inSection, [])) && forall l <- Replaced(lines, inSection, []) :: l in lines
  {
    hide IsStart, IsEnd;
    if lines != [] {
      ReplacedIsKept(lines[1..], true);
      ReplacedIsKept(lines[1..], false);
    }
  }

  lemma ScrubbedIsKept(lines: seq<string>)
    ensures forall l <- Scrubbed(lines) :: l in lines && Trim(l) !in LEGACY
  {
    hide Trim;
  }

  // ----- installing twice -----

  /** The lines of the user's that an installation keeps. */
  function KeptLines(lines: seq<string>): seq<string> {
    if Count(lines, IsStart) == 1 then Replaced(lines, false, [])
    else if OursAlone(Unlines(Scrubbed(lines))) then []
    else Scrubbed(lines)
  }

  predicate NoCR(lines: seq<string>) {
    forall l <- lines :: StripCR(l) == l
  }

  /** What an installation leaves: the kept lines, in order, with one whole section among them -- and, where
      it was not there before, a shebang or a blank line in front of it. */
  lemma InstalledShape(lines: seq<string>,
                       body: seq<string>) returns (pre: seq<string>, post: seq<string>, added: seq<string>)
    requires !Damaged(lines)
    ensures InstalledLines(lines, body) == (pre + added) + Section(body) + post
    ensures pre + post == KeptLines(lines) && (added == [] || added == [SHEBANG] || added == [""])
    ensures NoMarkers(pre + added) && NoMarkers(post) && forall l <- pre + post :: l in lines
  {
    hide IsStart, IsEnd, Section, OursAlone, Scrubbed, Replaced, Trim;
    MarkersAreLines();
    ReplacedIsKept(lines, false);
    ScrubbedIsKept(lines);
    if Count(lines, IsStart) == 1 {
      pre, post := ReplacedShape(lines, false, Section(body));
      added := [];
      assert pre + added == pre;
      assert forall l <- pre :: l in pre + post;
      assert forall l <- post :: l in pre + post;
    } else if OursAlone(Unlines(Scrubbed(lines))) {
      pre, post, added := [], [], [SHEBANG];
      assert ([] + [SHEBANG]) + Section(body) + [] == [SHEBANG] + Section(body);
    } else {
      pre, post, added := Scrubbed(lines), [], [""];
      UnmarkedLines(lines);
      assert pre + added + Section(body) + [] == pre + added + Section(body);
      assert forall l <- pre + added :: l in pre || l == "";
    }
  }

  lemma UnmarkedLines(lines: seq<string>)
    requires Count(lines, IsStart) == 0 && Count(lines, IsEnd) == 0
    ensures NoMarkers(lines)
  {
    hide IsStart, IsEnd;
  }

  lemma StripAllConcat(a: seq<string>, b: seq<string>)
    ensures StripAll(a + b) == StripAll(a) + StripAll(b)
  {
    hide StripCR;
  }

  lemma StripKeepsMarkers(lines: seq<string>)
    requires NoMarkers(lines)
    ensures NoMarkers(StripAll(lines))
  {
    hide Trim, StripCR;
    forall l | l in StripAll(lines)
      ensures !IsMarker(l)
    {
      var i :| 0 <= i < |lines| && l == StripAll(lines)[i];
      StripTrim(lines[i]);
      assert lines[i] in lines;
    }
  }

  /** Written lines determine the text, and the text the lines. */
  lemma {:induction false} UnlinesInjective(a: seq<string>, b: seq<string>)
    requires (forall l <- a :: IsLine(l)) && (forall l <- b :: IsLine(l)) && Unlines(a) == Unlines(b)
    ensures a == b
  {
    if a != [] && b != [] {
      assert IsLine(a[0]) && IsLine(b[0]);
      var s := Unlines(a);
      assert s[..|a[0]|] == a[0] && s[|a[0]|] == '\n' && s[..|b[0]|] == b[0] && s[|b[0]|] == '\n';
      IndexOfUnique(s, '\n', |a[0]|);
      IndexOfUnique(s, '\n', |b[0]|);
      assert s[|a[0]| + 1..] == Unlines(a[1..]) && s[|b[0]| + 1..] == Unlines(b[1..]);
      UnlinesInjective(a[1..], b[1..]);
      assert a == [a[0]] + a[1..] && b == [b[0]] + b[1..];
    }
  }

  lemma ReadsBackStripped(pre: seq<string>, post: seq<string>, body: seq<string>)
    requires GoodBody(body) && forall l <- pre + post :: IsLine(l)
    ensures Lines(Unlines(pre + Section(body) + post)) == StripAll(pre) + Section(body) + StripAll(post)
  {
    hide Lines, Unlines, StripAll, GoodBody, IsLine, Section;
    var ls := pre + Section(body) + post;
    SectionLines(body);
    assert forall l <- ls :: l in pre + post || l in Section(body);
    LinesUnlines(ls);
    StripAllConcat(pre + Section(body), post);
    StripAllConcat(pre, Section(body));
  }

  lemma InstalledInPlace(pre: seq<string>, post: seq<string>, body: seq<string>)
    requires GoodBody(body) && NoMarkers(pre) && NoMarkers(post)
    ensures var lines := pre + Section(body) + post; !Damaged(lines) && InstalledLines(lines, body) == lines
  {
    hide Replaced, IsStart, IsEnd, Count, NoMarkers, GoodBody, OursAlone, Scrubbed;
    var lines := pre + Section(body) + post;
    NoMarkersCount(pre);
    NoMarkersCount(post);
    SectionCount(body);
    CountConcat(pre + Section(body), post, IsStart);
    CountConcat(pre + Section(body), post, IsEnd);
    CountConcat(pre, Section(body), IsStart);
    CountConcat(pre, Section(body), IsEnd);
    BodyUnmarked(body);
    MarkersAreLines();
    OrderedSectionReplaced(pre, MARKER_START, body, MARKER_END, post, Section(body));
    assert pre + ([MARKER_START] + (body + ([MARKER_END] + post))) == lines;
  }

  /** Installing over a file that holds a section between unmarked lines. */
  lemma InstallOver(pre: seq<string>, post: seq<string>, body: seq<string>)
    requires GoodBody(body) && NoMarkers(pre) && NoMarkers(post) && forall l <- pre + post :: IsLine(l)
    ensures Installed(Unlines(pre + Section(body) + post), body)
      == Ok(Unlines(StripAll(pre) + Section(body) + StripAll(post)))
  {
    hide Lines, Unlines, StripAll, NoMarkers, GoodBody, IsLine, Section, InstalledLines, Damaged;
    ReadsBackStripped(pre, post, body);
    StripKeepsMarkers(pre);
    StripKeepsMarkers(post);
    InstalledInPlace(StripAll(pre), StripAll(post), body);
  }

  lemma BodyUnmarked(body: seq<string>)
    requires GoodBody(body)
    ensures NoMarkers(body)
  {
  }

  lemma SectionLines(body: seq<string>)
    requires GoodBody(body)
    ensures (forall l <- Section(body) :: IsLine(l)) && StripAll(Section(body)) == Section(body)
  {
    hide IsMarker, StripCR, IsLine;
    MarkersAreLines();
  }

  /** Once installed, installing again changes nothing -- exactly when no kept line still ends in a carriage
      return (`lines` takes off one a pass, so a line ending `\r\r\n` needs more than one). */
  lemma InstallFixpointIff(existing: string, body: seq<string>)
    requires GoodBody(body) && Installed(existing, body).Ok?
    ensures var text := Installed(existing, body).value;
      Installed(text, body) == Ok(text) <==> NoCR(KeptLines(Lines(existing)))
  {
    hide Lines, Unlines, InstalledLines, KeptLines, Damaged, GoodBody, Section, StripAll, NoMarkers, IsLine, StripCR;
    var lines := Lines(existing);
    var pre, post, added := InstalledShape(lines, body);
    LinesAreLines(existing);
    MarkersAreLines();
    assert IsLine("") by { EmptyIsLine(); }
    assert forall l <- (pre + added) + post :: IsLine(l) by {
      assert forall l <- (pre + added) + post :: l in pre + post || l == SHEBANG || l == "";
    }
    InstallOver(pre + added, post, body);
    var was := (pre + added) + Section(body) + post;
    var now := StripAll(pre + added) + Section(body) + StripAll(post);
    StripAllConcat(pre, added);
    StripAdded(added);
    StrippedSame(pre, added, post, Section(body), KeptLines(lines));
    SectionLines(body);
    assert forall l <- was :: IsLine(l) by {
      assert forall l <- was :: l in (pre + added) + post || l in Section(body);
    }
    StrippedAreLines(was);
    StripAllConcat((pre + added) + Section(body), post);
    StripAllConcat(pre + added, Section(body));
    assert now == StripAll(was);
    if Unlines(now) == Unlines(was) {
      UnlinesInjective(now, was);
    }
  }

  lemma EmptyIsLine()
    ensures IsLine("")
  {
  }

  lemma StripAdded(added: seq<string>)
    requires added == [] || added == [SHEBANG] || added == [""]
    ensures StripAll(added) == added
  {
  }

  lemma StrippedSame(pre: seq<string>, added: seq<string>, post: seq<string>, section: seq<string>, kept: seq<string>)
    requires kept == pre + post
    ensures StripAll(pre) + added + section + StripAll(post) == pre + added + section + post <==> NoCR(kept)
  {
    hide StripCR, StripAll, NoCR;
    PartsEqual(StripAll(pre), pre, added + section, StripAll(post), post);
    assert StripAll(pre) + added + section == StripAll(pre) + (added + section);
    assert pre + added + section == pre + (added + section);
    StripSameIff(pre);
    StripSameIff(post);
    NoCRConcat(pre, post);
  }

  lemma PartsEqual<T>(a1: seq<T>, b1: seq<T>, mid: seq<T>, a2: seq<T>, b2: seq<T>)
    requires |a1| == |b1| && |a2| == |b2|
    ensures a1 + mid + a2 == b1 + mid + b2 <==> a1 == b1 && a2 == b2
  {
    var a, b := a1 + mid + a2, b1 + mid + b2;
    assert a[..|a1|] == a1 && a[|a1| + |mid|..] == a2;
    assert b[..|a1|] == b1 && b[|a1| + |mid|..] == b2;
  }

  lemma StripSameIff(lines: seq<string>)
    ensures StripAll(lines) == lines <==> NoCR(lines)
    ensures |StripAll(lines)| == |lines|
  {
    hide StripCR;
    if StripAll(lines) == lines {
      forall l | l in lines
        ensures StripCR(l) == l
      {
        var i :| 0 <= i < |lines| && lines[i] == l;
        assert StripAll(lines)[i] == StripCR(lines[i]);
      }
    }
  }

  lemma NoCRConcat(a: seq<string>, b: seq<string>)
    ensures NoCR(a + b) <==> NoCR(a) && NoCR(b)
  {
    hide StripCR;
    assert forall l <- a :: l in a + b;
    assert forall l <- b :: l in a + b;
  }

  lemma StrippedAreLines(lines: seq<string>)
    requires forall l <- lines :: IsLine(l)
    ensures forall l <- StripAll(lines) :: IsLine(l)
  {
    forall l | l in StripAll(lines)
      ensures IsLine(l)
    {
      var i :| 0 <= i < |lines| && l == StripAll(lines)[i];
      assert lines[i] in lines;
    }
  }

  /** Taking the section out again (`remove_hook`) leaves the kept lines, and what stands in front of a
      section that was added. */
  lemma RemoveAfterInstall(existing: string, body: seq<string>)
    requires GoodBody(body) && Installed(existing, body).Ok? && NoCR(KeptLines(Lines(existing)))
    ensures exists pre, post, added ::
      Replaced(Lines(Installed(existing, body).value), false, []) == (pre + added) + post
      && pre + post == KeptLines(Lines(existing)) && (added == [] || added == [SHEBANG] || added == [""])
  {
    hide Lines, Unlines, InstalledLines, KeptLines, Damaged, GoodBody, StripAll, NoMarkers, IsLine, StripCR, Replaced;
    hide IsStart, IsEnd;
    var lines := Lines(existing);
    var pre, post, added := InstalledShape(lines, body);
    LinesAreLines(existing);
    SectionLines(body);
    MarkersAreLines();
    assert IsLine("") by { EmptyIsLine(); }
    var was := (pre + added) + Section(body) + post;
    assert forall l <- was :: IsLine(l) by {
      assert forall l <- was :: l in pre + post || l == SHEBANG || l == "" || l in Section(body);
    }
    LinesUnlines(was);
    StripAllConcat((pre + added) + Section(body), post);
    StripAllConcat(pre + added, Section(body));
    StripAllConcat(pre, added);
    StripAdded(added);
    StrippedSame(pre, added, post, Section(body), KeptLines(lines));
    assert StripAll(was) == was;
    BodyUnmarked(body);
    OrderedSectionReplaced(pre + added, MARKER_START, body, MARKER_END, post, []);
    assert was == (pre + added) + ([MARKER_START] + (body + ([MARKER_END] + post)));
    assert (pre + added) + [] + post == (pre + added) + post;
  }
}
