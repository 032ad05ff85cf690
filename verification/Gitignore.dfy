/** The managed block of the root `.gitignore` (`ensure_engine_gitignore`, `remove_engine_gitignore`,
    src/kit.rs). The entries are a parameter: which engine directories there are depends on the disk. */
module Gitignore {
  import opened Wrappers
  import opened Text

  const BEGIN := "# >>> git-lex engine " + "runtime (managed) >>>"
  const END := "# <<< git-lex engine " + "runtime (managed) <<<"

  function Block(entries: seq<string>): string {
    BEGIN + "\n" + Unlines(entries) + END
  }

  /** Directory names: one line each, no marker in them. */
  ghost predicate GoodEntries(entries: seq<string>) {
    forall e <- entries :: IsLine(e) && !Contains(e, END)
  }

  function Ensured(existing: string, entries: seq<string>): string {
    match (Find(existing, BEGIN), Find(existing, END))
    case (Some(start), Some(at)) => existing[..start] + Block(entries) + existing[at + |END|..]
    case _ =>
      if Trim(existing) == "" then Block(entries) + "\n" else TrimEnd(existing) + "\n\n" + Block(entries) + "\n"
  }

  predicate IsGitLexLine(line: string) {
    Trim(line) in {".lex", ".lex/", "/.lex", "/.lex/", ".lex/_ignore", ".lex/_ignore/", ".git/lex", ".git/lex/"}
  }

  function Kept(pieces: seq<string>): string {
    if pieces == [] then "" else (if IsGitLexLine(pieces[0]) then "" else pieces[0]) + Kept(pieces[1..])
  }

  function RemovedLines(pieces: seq<string>): seq<string> {
    if pieces == [] then []
    else (if IsGitLexLine(pieces[0]) then [Trim(pieces[0])] else []) + RemovedLines(pieces[1..])
  }

  /** The text without the block; None when there is none. */
  function WithoutBlock(existing: string): Option<string> {
    match (Find(existing, BEGIN), Find(existing, END))
    case (Some(start), Some(at)) =>
      if at < start then None
      else
        var end := at + |END|;
        var after := if end < |existing| && existing[end] == '\n' then end + 1 else end;
        var before := if EndsWith(existing[..start], "\n\n") then start - 1 else start;
        Some(existing[..before] + existing[after..])
    case _ => None
  }

  // ----- the program -----

  /** The text `ensure_engine_gitignore` writes. */
  method EnsureText(existing: string, entries: seq<string>) returns (text: string)
    ensures text == Ensured(existing, entries)
  {
    var block := BEGIN + "\n";
    assert entries[0..] == entries;
    for i := 0 to |entries|
      invariant block + Unlines(entries[i..]) == BEGIN + "\n" + Unlines(entries)
    {
      assert entries[i..][1..] == entries[i + 1..];
      block := block + entries[i];
      block := block + "\n";
    }
    assert entries[|entries|..] == [] && block + "" == block;
    block := block + END;
    var start, at := Find(existing, BEGIN), Find(existing, END);
    if start.Some? && at.Some? {
      text := existing[..start.value] + block + existing[at.value + |END|..];
    } else if Trim(existing) == "" {
      text := block + "\n";
    } else {
      text := TrimEnd(existing) + "\n\n" + block + "\n";
    }
  }

  /** The text `remove_engine_gitignore` leaves, and what it reports. */
  method RemoveText(existing: string) returns (kept: string, removedBlock: bool, removedLines: seq<string>)
    ensures removedBlock == WithoutBlock(existing).Some?
    ensures var pieces := SplitInclusive(WithoutBlock(existing).GetOr(existing));
      kept == Kept(pieces) && removedLines == RemovedLines(pieces)
  {
    var contents := existing;
    removedBlock := false;
    var found, at := Find(existing, BEGIN), Find(existing, END);
    if found.Some? && at.Some? && at.value >= found.value {
      var start, end := found.value, at.value + |END|;
      if end < |existing| && existing[end] == '\n' {
        end := end + 1;
      }
      if EndsWith(existing[..start], "\n\n") {
        start := start - 1;
      }
      contents, removedBlock := existing[..start] + existing[end..], true;
    }
    assert contents == WithoutBlock(existing).GetOr(existing);
    kept, removedLines := KeepLines(SplitInclusive(contents));
  }

  method KeepLines(pieces: seq<string>) returns (kept: string, removedLines: seq<string>)
    ensures kept == Kept(pieces) && removedLines == RemovedLines(pieces)
  {
    kept, removedLines := "", [];
    assert pieces[0..] == pieces;
    for i := 0 to |pieces|
      invariant i <= |pieces| && kept + Kept(pieces[i..]) == Kept(pieces)
      invariant removedLines + RemovedLines(pieces[i..]) == RemovedLines(pieces)
    {
      KeptStep(kept, removedLines, pieces, i);
      if IsGitLexLine(pieces[i]) {
        removedLines := removedLines + [Trim(pieces[i])];
      } else {
        kept := kept + pieces[i];
      }
    }
  }

  lemma KeptStep(kept: string, removed: seq<string>, pieces: seq<string>, i: nat)
    requires i < |pieces|
    ensures kept + Kept(pieces[i..])
      == (if IsGitLexLine(pieces[i]) then kept else kept + pieces[i]) + Kept(pieces[i + 1..])
    ensures removed + RemovedLines(pieces[i..])
      == (if IsGitLexLine(pieces[i]) then removed + [Trim(pieces[i])] else removed) + RemovedLines(pieces[i + 1..])
  {
    hide IsGitLexLine, Trim;
    assert pieces[i..][1..] == pieces[i + 1..];
    var k, r := Kept(pieces[i + 1..]), RemovedLines(pieces[i + 1..]);
    assert "" + k == k && [] + r == r;
    Regroup(kept, pieces[i], k);
    Regroup(removed, [Trim(pieces[i])], r);
  }

  // ----- markers and newlines -----

  lemma Markers()
    ensures |BEGIN| == |END| == 42 && BEGIN != END && '\n' !in BEGIN && '\n' !in END
    ensures !IsWhite(BEGIN[0]) && !IsWhite(BEGIN[41]) && !IsWhite(END[41])
  {
    BeginShape();
    EndShape();
  }

  lemma BeginShape()
    ensures |BEGIN| == 42 && '\n' !in BEGIN && BEGIN[0] == '#' && BEGIN[2] == '>' && BEGIN[41] == '>'
  {
  }

  lemma EndShape()
    ensures |END| == 42 && '\n' !in END && END[2] == '<' && END[41] == '<' && '#' !in END[1..]
  {
  }

  lemma FindIs(s: string, sub: string, i: nat)
    requires OccursAt(s, sub, i) && forall j: nat :: j < i ==> !OccursAt(s, sub, j)
    ensures Find(s, sub) == Some(i)
  {
    assert Contains(s, sub);
  }

  lemma NoStraddle(s: string, w: string, i: nat, p: nat)
    requires '\n' !in w && OccursAt(s, w, i) && p < |s| && s[p] == '\n'
    ensures p < i || i + |w| <= p
  {
    OccursChars(s, w, i);
  }

  /** A text of one line does not straddle a line break. */
  lemma OccursAcross(a: string, b: string, w: string, i: nat)
    requires '\n' !in w && w != "" && OccursAt(a + "\n" + b, w, i)
    ensures OccursAt(a, w, i) || (i > |a| && OccursAt(b, w, i - |a| - 1))
  {
    var s := a + "\n" + b;
    NoStraddle(s, w, i, |a|);
    if i + |w| <= |a| {
      assert s[i..i + |w|] == a[i..i + |w|];
    } else if i > |a| {
      var k := i - |a| - 1;
      assert s[i..i + |w|] == b[k..k + |w|];
    }
  }

  lemma OccursInRest(a: string, b: string, w: string, i: nat)
    requires i >= |a|
    ensures OccursAt(a + b, w, i) == OccursAt(b, w, i - |a|)
  {
    if i + |w| <= |a + b| {
      assert (a + b)[i..i + |w|] == b[i - |a|..i - |a| + |w|];
    }
  }

  lemma OccursInPrefix(s: string, t: string, w: string, i: nat)
    requires i + |w| <= |s|
    ensures OccursAt(s + t, w, i) == OccursAt(s, w, i)
  {
    assert (s + t)[i..i + |w|] == s[i..i + |w|];
  }

  lemma {:induction false} NotInEntries(entries: seq<string>, t: string, i: nat)
    requires GoodEntries(entries) && i < |Unlines(entries)|
    ensures !OccursAt(Unlines(entries) + t, END, i)
  {
    hide OccursAt;
    Markers();
    var e, rest := entries[0], Unlines(entries[1..]) + t;
    assert IsLine(e) && !Contains(e, END);
    assert Unlines(entries) + t == e + "\n" + rest;
    if OccursAt(e + "\n" + rest, END, i) {
      OccursAcross(e, rest, END, i);
      assert !OccursAt(e, END, i);
      NotInEntries(entries[1..], t, i - |e| - 1);
    }
  }

  /** The end marker of a block is the first one from the block's start on. */
  lemma BlockEnd(entries: seq<string>, t: string, i: nat)
    requires GoodEntries(entries) && OccursAt(Block(entries) + t, END, i)
    ensures i >= |Block(entries)| - |END|
  {
    hide OccursAt, GoodEntries;
    Markers();
    var rest := Unlines(entries) + (END + t);
    assert Block(entries) + t == BEGIN + "\n" + rest;
    OccursAcross(BEGIN, rest, END, i);
    EndNotInBegin(i);
    var k := i - |BEGIN| - 1;
    if 0 <= k < |Unlines(entries)| {
      NotInEntries(entries, END + t, k);
    }
    assert |Block(entries)| == |BEGIN| + 1 + |Unlines(entries)| + |END|;
  }

  lemma EndNotInBegin(i: nat)
    ensures !OccursAt(BEGIN, END, i)
  {
    Markers();
    assert BEGIN[0..42] == BEGIN;
  }

  // ----- a block in its place -----

  /** Neither marker begins in `pre`, even with a begin marker put after it. */
  ghost predicate Clean(pre: string, w: string) {
    forall j: nat :: j < |pre| ==> !OccursAt(pre + BEGIN, w, j)
  }

  lemma CleanInText(pre: string, rest: string, w: string, j: nat)
    requires Clean(pre, w) && |w| == |BEGIN| && j < |pre|
    ensures !OccursAt(pre + BEGIN + rest, w, j)
  {
    OccursInPrefix(pre + BEGIN, rest, w, j);
  }

  lemma FindsBlock(pre: string, entries: seq<string>, post: string)
    requires Clean(pre, BEGIN) && Clean(pre, END) && GoodEntries(entries)
    ensures var text := pre + Block(entries) + post;
      Find(text, BEGIN) == Some(|pre|) && Find(text, END) == Some(|pre| + |Block(entries)| - |END|)
  {
    hide Clean, OccursAt;
    Markers();
    FindsBegin(pre, entries, post);
    var text := pre + Block(entries) + post;
    var i := |pre| + |Block(entries)| - |END|;
    assert OccursAt(text, END, i) by { EndsAt(pre, entries, post); }
    forall j: nat | j < i
      ensures !OccursAt(text, END, j)
    {
      NoEarlierEnd(pre, entries, post, j);
    }
    FindIs(text, END, i);
  }

  lemma FindsBegin(pre: string, entries: seq<string>, post: string)
    requires Clean(pre, BEGIN)
    ensures Find(pre + Block(entries) + post, BEGIN) == Some(|pre|)
  {
    var text := pre + Block(entries) + post;
    var rest := "\n" + Unlines(entries) + END + post;
    assert text == pre + BEGIN + rest;
    forall j: nat | j < |pre|
      ensures !OccursAt(text, BEGIN, j)
    {
      CleanInText(pre, rest, BEGIN, j);
    }
    FindIs(text, BEGIN, |pre|);
  }

  lemma EndsAt(pre: string, entries: seq<string>, post: string)
    ensures OccursAt(pre + Block(entries) + post, END, |pre| + |Block(entries)| - |END|)
  {
    assert pre + Block(entries) + post == (pre + (BEGIN + "\n" + Unlines(entries))) + END + post;
  }

  lemma NoEarlierEnd(pre: string, entries: seq<string>, post: string, j: nat)
    requires Clean(pre, END) && GoodEntries(entries) && j < |pre| + |Block(entries)| - |END|
    ensures !OccursAt(pre + Block(entries) + post, END, j)
  {
    hide OccursAt, Clean, GoodEntries, Block, END;
    if j < |pre| {
      NoEndBefore(pre, entries, post, j);
    } else {
      Regroup(pre, Block(entries), post);
      OccursInRest(pre, Block(entries) + post, END, j);
      if OccursAt(Block(entries) + post, END, j - |pre|) {
        BlockEnd(entries, post, j - |pre|);
      }
    }
  }

  lemma NoEndBefore(pre: string, entries: seq<string>, post: string, j: nat)
    requires Clean(pre, END) && j < |pre|
    ensures !OccursAt(pre + Block(entries) + post, END, j)
  {
    hide OccursAt, Clean;
    Markers();
    var rest := "\n" + Unlines(entries) + END + post;
    assert pre + Block(entries) + post == pre + BEGIN + rest;
    CleanInText(pre, rest, END, j);
  }

  /** A block that stands after clean text is replaced where it stands; everything around it stays. */
  lemma ReplacedInPlace(pre: string, entries: seq<string>, post: string, newer: seq<string>)
    requires Clean(pre, BEGIN) && Clean(pre, END) && GoodEntries(entries)
    ensures Ensured(pre + Block(entries) + post, newer) == pre + Block(newer) + post
  {
    hide Clean, Block, Find;
    FindsBlock(pre, entries, post);
    var text := pre + Block(entries) + post;
    assert text[..|pre|] == pre && text[|pre| + |Block(entries)|..] == post;
    assert |pre| + |Block(entries)| - |END| + |END| == |pre| + |Block(entries)|;
  }

  // ----- when is it idempotent -----

  /** No markers at all, or a begin marker before the first end marker. */
  predicate WellPlaced(text: string) {
    match (Find(text, BEGIN), Find(text, END))
    case (None, None) => true
    case (Some(start), Some(at)) => start <= at
    case _ => false
  }

  lemma CleanBefore(text: string, start: nat, w: string)
    requires OccursAt(text, BEGIN, start) && |w| == |BEGIN|
    requires forall j: nat :: j < start ==> !OccursAt(text, w, j)
    ensures Clean(text[..start], w)
  {
    var pre := text[..start];
    assert pre + BEGIN == text[..start + |BEGIN|];
    forall j: nat | j < |pre|
      ensures !OccursAt(pre + BEGIN, w, j)
    {
      OccursInPrefix(pre + BEGIN, text[start + |BEGIN|..], w, j);
      assert pre + BEGIN + text[start + |BEGIN|..] == text;
    }
  }

  lemma CleanAppended(text: string, w: string)
    requires !Contains(TrimEnd(text), w) && '\n' !in w && |w| == |BEGIN|
    ensures Clean(TrimEnd(text) + "\n\n", w)
  {
    hide TrimEnd, OccursAt;
    var kept := TrimEnd(text);
    var pre := kept + "\n\n";
    assert pre + BEGIN == kept + "\n" + ("\n" + BEGIN);
    forall j: nat | j < |pre|
      ensures !OccursAt(pre + BEGIN, w, j)
    {
      NotAppended(kept, w, j);
    }
  }

  lemma NotAppended(kept: string, w: string, j: nat)
    requires !Contains(kept, w) && '\n' !in w && w != "" && j < |kept| + 2
    ensures !OccursAt(kept + "\n" + ("\n" + BEGIN), w, j)
  {
    BreakFirst(w, BEGIN);
    assert !OccursAt(kept, w, j);
    hide OccursAt;
    if OccursAt(kept + "\n" + ("\n" + BEGIN), w, j) {
      OccursAcross(kept, "\n" + BEGIN, w, j);
    }
  }

  lemma BreakFirst(w: string, t: string)
    requires '\n' !in w && w != ""
    ensures !OccursAt("\n" + t, w, 0)
  {
    var s := "\n" + t;
    assert |w| <= |s| ==> s[0..0 + |w|][0] == '\n';
  }

  lemma OccursFits(s: string, w: string, i: nat)
    ensures OccursAt(s, w, i) ==> i + |w| <= |s|
  {
  }

  lemma CleanEmpty(w: string)
    ensures Clean("", w)
  {
  }

  lemma TrimEndKeeps(text: string, w: string, i: nat)
    requires w != "" && !IsWhite(w[|w| - 1]) && OccursAt(text, w, i)
    ensures OccursAt(TrimEnd(text), w, i)
  {
    TrimEndShape(text);
    assert text[i..i + |w|][|w| - 1] == text[i + |w| - 1];
    assert text[i..i + |w|] == TrimEnd(text)[i..i + |w|];
  }

  lemma TrimEndContained(text: string, w: string)
    requires Contains(TrimEnd(text), w)
    ensures Contains(text, w)
  {
    TrimEndShape(text);
    assert text[0..|TrimEnd(text)|] == TrimEnd(text);
    ContainsSub(text, 0, |TrimEnd(text)|, w);
  }

  lemma MarkedIsNotBlank(text: string, w: string, i: nat)
    requires |w| == 42 && !IsWhite(w[41]) && OccursAt(text, w, i)
    ensures Trim(text) != ""
  {
    AllWhite(text);
    assert text[i..i + |w|][41] == text[i + 41];
    assert text[i + 41] in text;
  }

  /** Well placed: the managed block ends up between two texts that stay. */
  lemma EnsuredShape(text: string, entries: seq<string>) returns (pre: string, post: string)
    requires WellPlaced(text)
    ensures Clean(pre, BEGIN) && Clean(pre, END) && Ensured(text, entries) == pre + Block(entries) + post
    ensures Find(text, BEGIN).Some? ==>
      pre == text[..Find(text, BEGIN).value] && post == text[Find(text, END).value + |END|..]
    ensures Find(text, BEGIN).None? ==>
      pre == (if Trim(text) == "" then "" else TrimEnd(text) + "\n\n") && post == "\n"
  {
    hide OccursAt, Clean, Block, TrimEnd;
    Markers();
    var start, at := Find(text, BEGIN), Find(text, END);
    if start.Some? {
      OccursFits(text, BEGIN, start.value);
      OccursFits(text, END, at.value);
      pre, post := text[..start.value], text[at.value + |END|..];
      assert forall j: nat :: j < start.value ==> !OccursAt(text, END, j);
      CleanBefore(text, start.value, BEGIN);
      CleanBefore(text, start.value, END);
    } else if Trim(text) == "" {
      pre, post := "", "\n";
      CleanEmpty(BEGIN);
      CleanEmpty(END);
      assert "" + Block(entries) == Block(entries);
    } else {
      pre, post := TrimEnd(text) + "\n\n", "\n";
      if Contains(TrimEnd(text), BEGIN) {
        TrimEndContained(text, BEGIN);
      }
      if Contains(TrimEnd(text), END) {
        TrimEndContained(text, END);
      }
      CleanAppended(text, BEGIN);
      CleanAppended(text, END);
    }
  }

  /** An end marker before the begin marker, and the two apart. */
  predicate IsReversed(text: string) {
    Find(text, BEGIN).Some? && Find(text, END).Some? && Find(text, END).value + |END| <= Find(text, BEGIN).value
  }

  lemma ReversedIsApart(text: string)
    requires Find(text, BEGIN).Some? && Find(text, END).Some? && Find(text, END).value < Find(text, BEGIN).value
    ensures IsReversed(text)
  {
    BeginShape();
    EndShape();
    var b, e := Find(text, BEGIN).value, Find(text, END).value;
    OccursChars(text, BEGIN, b);
    OccursChars(text, END, e);
    assert forall k :: 1 <= k < 42 ==> END[k] == END[1..][k - 1];
    assert text[b] == '#';
  }

  lemma OccursChars(s: string, w: string, i: nat)
    requires OccursAt(s, w, i)
    ensures i + |w| <= |s| && forall q :: i <= q < i + |w| ==> s[q] == w[q - i]
  {
    assert forall k :: 0 <= k < |w| ==> s[i..i + |w|][k] == w[k];
  }

  /** Then the text between them is written twice, the markers stay the wrong way round, and the file is
      longer after every run: it never settles. */
  lemma ReversedGrows(text: string, entries: seq<string>)
    requires IsReversed(text)
    ensures IsReversed(Ensured(text, entries)) && |Ensured(text, entries)| >= |text| + |Block(entries)|
  {
    hide OccursAt, Block;
    Markers();
    var b, e := Find(text, BEGIN).value, Find(text, END).value;
    OccursFits(text, BEGIN, b);
    var pre, post := text[..b], text[e + |END|..];
    var now := Ensured(text, entries);
    assert now == pre + Block(entries) + post;
    CleanBefore(text, b, BEGIN);
    FindsBegin(pre, entries, post);
    EndStays(text, now, b, e);
  }

  lemma EndStays(text: string, now: string, b: nat, e: nat)
    requires Find(text, END) == Some(e) && e + |END| <= b <= |text| && b <= |now| && now[..b] == text[..b]
    ensures Find(now, END) == Some(e)
  {
    hide Find;
    assert Find(text, END).Some? && OccursAt(text, END, e) && forall j: nat :: j < e ==> !OccursAt(text, END, j) by {
      FindFirst(text, END);
    }
    assert text == text[..b] + text[b..] && now == text[..b] + now[b..];
    forall j: nat | j <= e
      ensures OccursAt(now, END, j) == OccursAt(text, END, j)
    {
      OccursInPrefix(text[..b], text[b..], END, j);
      OccursInPrefix(text[..b], now[b..], END, j);
    }
    FindIs(now, END, e);
  }

  lemma FindFirst(s: string, sub: string)
    ensures Find(s, sub).Some? ==>
      OccursAt(s, sub, Find(s, sub).value) && forall j: nat :: j < Find(s, sub).value ==> !OccursAt(s, sub, j)
  {
  }

  /** A lone end marker becomes a reversed pair as soon as a block is appended. */
  lemma LoneEndGrows(text: string, entries: seq<string>)
    requires Find(text, BEGIN).None? && Find(text, END).Some?
    ensures IsReversed(Ensured(text, entries))
  {
    hide OccursAt, Block, TrimEnd;
    Markers();
    var e := Find(text, END).value;
    MarkedIsNotBlank(text, END, e);
    TrimEndKeeps(text, END, e);
    var pre := TrimEnd(text) + "\n\n";
    var now := Ensured(text, entries);
    assert now == pre + Block(entries) + "\n";
    if Contains(TrimEnd(text), BEGIN) {
      TrimEndContained(text, BEGIN);
    }
    CleanAppended(text, BEGIN);
    FindsBegin(pre, entries, "\n");
    OccursFits(TrimEnd(text), END, e);
    assert OccursAt(now, END, e) by {
      OccursInPrefix(TrimEnd(text), "\n\n" + Block(entries) + "\n", END, e);
      assert now == TrimEnd(text) + ("\n\n" + Block(entries) + "\n");
    }
    FoundBy(now, END, e);
  }

  lemma FoundBy(s: string, sub: string, i: nat)
    requires OccursAt(s, sub, i)
    ensures Find(s, sub).Some? && Find(s, sub).value <= i
  {
    assert Contains(s, sub);
  }

  /** A lone begin marker: the first run appends a block, and the second run deletes everything from the lone
      marker to that block. */
  lemma LoneBeginLosesText(text: string, entries: seq<string>)
    requires Find(text, BEGIN).Some? && Find(text, END).None? && GoodEntries(entries)
    ensures Ensured(Ensured(text, entries), entries) == text[..Find(text, BEGIN).value] + Block(entries) + "\n"
    ensures |Ensured(Ensured(text, entries), entries)| < |Ensured(text, entries)|
  {
    hide OccursAt, Block, TrimEnd;
    Markers();
    var b := Find(text, BEGIN).value;
    MarkedIsNotBlank(text, BEGIN, b);
    TrimEndKeeps(text, BEGIN, b);
    OccursFits(TrimEnd(text), BEGIN, b);
    TrimEndShape(text);
    var pre := TrimEnd(text) + "\n\n";
    var now := Ensured(text, entries);
    assert now == pre + Block(entries) + "\n";
    if Contains(TrimEnd(text), END) {
      TrimEndContained(text, END);
    }
    CleanAppended(text, END);
    EndFound(pre, entries, "\n");
    BeginStays(text, now, b);
    var i := |pre| + |Block(entries)| - |END|;
    assert now[..b] == text[..b] && now[i + |END|..] == "\n";
  }

  lemma EndFound(pre: string, entries: seq<string>, post: string)
    requires Clean(pre, END) && GoodEntries(entries)
    ensures Find(pre + Block(entries) + post, END) == Some(|pre| + |Block(entries)| - |END|)
  {
    hide OccursAt, Block;
    assert |Block(entries)| >= |END| by { BlockLong(entries); }
    var text, i := pre + Block(entries) + post, |pre| + |Block(entries)| - |END|;
    EndsAt(pre, entries, post);
    forall j: nat | j < i
      ensures !OccursAt(text, END, j)
    {
      NoEarlierEnd(pre, entries, post, j);
    }
    FindIs(text, END, i);
  }

  lemma BlockLong(entries: seq<string>)
    ensures |Block(entries)| >= |END|
  {
  }

  lemma BeginStays(text: string, now: string, b: nat)
    requires Find(text, BEGIN) == Some(b) && b + |BEGIN| <= |TrimEnd(text)| <= |now|
    requires TrimEnd(text) <= text && TrimEnd(text) <= now
    ensures Find(now, BEGIN) == Some(b)
  {
    hide Find, TrimEnd;
    FindFirst(text, BEGIN);
    var t := TrimEnd(text);
    assert text == t + text[|t|..] && now == t + now[|t|..];
    forall j: nat | j <= b
      ensures OccursAt(now, BEGIN, j) == OccursAt(text, BEGIN, j)
    {
      OccursInPrefix(t, text[|t|..], BEGIN, j);
      OccursInPrefix(t, now[|t|..], BEGIN, j);
    }
    FindIs(now, BEGIN, b);
  }

  /** A second run changes nothing exactly when the markers the file came with were well placed. */
  lemma EnsureTwiceIff(text: string, entries: seq<string>)
    requires GoodEntries(entries)
    ensures Ensured(Ensured(text, entries), entries) == Ensured(text, entries) <==> WellPlaced(text)
  {
    hide Ensured, Block, OccursAt, GoodEntries, Clean;
    BlockLong(entries);
    Markers();
    var start, at := Find(text, BEGIN), Find(text, END);
    if WellPlaced(text) {
      var pre, post := EnsuredShape(text, entries);
      ReplacedInPlace(pre, entries, post, entries);
    } else if start.Some? && at.Some? {
      ReversedIsApart(text);
      ReversedGrows(text, entries);
      ReversedGrows(Ensured(text, entries), entries);
    } else if at.Some? {
      LoneEndGrows(text, entries);
      ReversedGrows(Ensured(text, entries), entries);
    } else {
      LoneBeginLosesText(text, entries);
    }
  }

  // ----- removal undoes it -----

  predicate NoGitLexLines(text: string) {
    forall p <- SplitInclusive(text) :: !IsGitLexLine(p)
  }

  lemma {:induction false} KeptIff(pieces: seq<string>)
    ensures |Kept(pieces)| <= |Concat(pieces)|
    ensures (forall p <- pieces :: !IsGitLexLine(p)) ==> Kept(pieces) == Concat(pieces)
    ensures !(forall p <- pieces :: !IsGitLexLine(p)) ==> |Kept(pieces)| + 4 <= |Concat(pieces)|
  {
    hide IsGitLexLine;
    if pieces != [] {
      KeptIff(pieces[1..]);
      GitLexLong(pieces[0]);
      assert forall p <- pieces :: p == pieces[0] || p in pieces[1..];
    }
  }

  lemma GitLexLong(line: string)
    ensures IsGitLexLine(line) ==> |line| >= 4
  {
    TrimStartShape(line);
    TrimEndShape(TrimStart(line));
    assert |Trim(line)| <= |line|;
  }

  /** Taking the block out of a file that had no markers before leaves what the file was up to its trailing
      white space -- so removal undoes the installation exactly when the file ended in one newline and no line
      of it named a git-lex directory. */
  lemma RemoveUndoesIff(text: string, entries: seq<string>)
    requires GoodEntries(entries) && Find(text, BEGIN).None? && Find(text, END).None? && Trim(text) != ""
    ensures WithoutBlock(Ensured(text, entries)) == Some(TrimEnd(text) + "\n")
    ensures Kept(SplitInclusive(TrimEnd(text) + "\n")) == text <==> text == TrimEnd(text) + "\n" && NoGitLexLines(text)
  {
    hide OccursAt, Block, TrimEnd, Clean, SplitInclusive, IsGitLexLine, WithoutBlock, Ensured;
    BlockComesOut(text, entries);
    KeptIff(SplitInclusive(TrimEnd(text) + "\n"));
    ConcatSplit(TrimEnd(text) + "\n");
    TrimEndShape(text);
  }

  lemma BlockComesOut(text: string, entries: seq<string>)
    requires GoodEntries(entries) && Find(text, BEGIN).None? && Find(text, END).None? && Trim(text) != ""
    ensures WithoutBlock(Ensured(text, entries)) == Some(TrimEnd(text) + "\n")
  {
    hide OccursAt, Block, TrimEnd, Clean, Ensured, Find;
    BlockLong(entries);
    var kept := TrimEnd(text);
    var pre, post := EnsuredShape(text, entries);
    FindsBlock(pre, entries, post);
    var now, end := pre + Block(entries) + post, |pre| + |Block(entries)|;
    assert now[end] == '\n' && now[end + 1..] == "" && now[..|pre|] == pre;
    assert pre[|pre| - 2..] == "\n\n";
    assert now[..|pre| - 1] == kept + "\n";
    assert kept + "\n" + "" == kept + "\n";
  }

  predicate IsGitLexDirectory(name: string) {
    name == ".lex" || name == "/.lex" || name == ".lex/_ignore" || name == ".git/lex"
  }

  /** A line of git-lex's own names one of its four directories, with or without a slash at the end and with any white
      space around it. */
  lemma GitLexLineIff(before: string, name: string, after: string)
    requires (forall c <- before :: IsWhite(c)) && (forall c <- after :: IsWhite(c)) && IsTrimmed(name)
    ensures IsGitLexLine(before + name + after) <==>
      IsGitLexDirectory(name) || (EndsWith(name, "/") && IsGitLexDirectory(name[..|name| - 1]))
  {
    TrimPadded(before, name, after);
    assert EndsWith(name, "/") ==> name == name[..|name| - 1] + "/";
    SlashAtEnd(".lex");
    SlashAtEnd("/.lex");
    SlashAtEnd(".lex/_ignore");
    SlashAtEnd(".git/lex");
    assert ".lex" + "/" == ".lex/" && "/.lex" + "/" == "/.lex/";
    assert ".lex/_ignore" + "/" == ".lex/_ignore/" && ".git/lex" + "/" == ".git/lex/";
  }

  lemma SlashAtEnd(dir: string)
    ensures EndsWith(dir + "/", "/") && (dir + "/")[..|dir + "/"| - 1] == dir
  {
  }
}
