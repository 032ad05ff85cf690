/** Which lines of a hook git-lex takes for its own, by how they are written (src/hooks.rs). */
module HookLaws {
  import opened Wrappers
  import opened Text
  import opened Hooks

  predicate IsPadding(s: string) {
    forall c <- s :: IsWhite(c)
  }

  /** A marker is known by its whole text, whatever white space is around it. */
  lemma MarkerIff(before: string, text: string, after: string)
    requires IsPadding(before) && IsPadding(after) && IsTrimmed(text)
    ensures IsStart(before + text + after) <==>
      text == "# --- git-lex managed " + "(do not edit this section) ---"
    ensures IsEnd(before + text + after) <==> text == "# --- end git-lex managed ---"
  {
    TrimPadded(before, text, after);
  }

  /** The commands of hooks from before there was a section: extraction, its staging, and validation, under either
      spelling of the program's name. */
  predicate IsOldCommand(text: string) {
    IsCommandOf("git-lex", text) || IsCommandOf("git lex", text)
    || text == "git add .lex/extract/" || text == "git add .lex/extract/" + " 2>/dev/null"
  }

  predicate IsCommandOf(program: string, text: string) {
    text == program + " extract" || text == program + " validate || exit 1"
  }

  /** The lines an installation without a section starts from: all but the old commands, in order. */
  lemma {:induction false} ScrubbedJoins(a: seq<string>, b: seq<string>)
    ensures Scrubbed(a + b) == Scrubbed(a) + Scrubbed(b)
  {
    if a == [] {
      assert a + b == b;
    } else {
      hide LEGACY, Trim;
      assert (a + b)[1..] == a[1..] + b;
      ScrubbedJoins(a[1..], b);
    }
  }

  lemma OldCommandGoes(before: string, text: string, after: string)
    requires IsPadding(before) && IsPadding(after) && IsTrimmed(text)
    ensures Scrubbed([before + text + after]) == if IsOldCommand(text) then [] else [before + text + after]
  {
    hide Trim;
    TrimPadded(before, text, after);
    OldCommands(text);
    var line := before + text + after;
    assert [line][1..] == [];
    assert [line] + [] == [line];
  }

  lemma OldCommands(text: string)
    ensures text in LEGACY <==> IsOldCommand(text)
  {
    Spelled();
    AmongSix(text, "git-lex extract", "git lex extract", "git add .lex/extract/ 2>/dev/null", "git add .lex/extract/",
             "git-lex validate || exit 1", "git lex validate || exit 1");
  }

  lemma AmongSix(text: string, a: string, b: string, c: string, d: string, e: string, f: string)
    ensures text in {a, b, c, d, e, f} <==> text == a || text == b || text == c || text == d || text == e || text == f
  {
  }

  lemma Spelled()
    ensures "git-lex" + " extract" == "git-lex extract" && "git lex" + " extract" == "git lex extract"
    ensures "git-lex" + " validate || exit 1" == "git-lex validate || exit 1"
    ensures "git lex" + " validate || exit 1" == "git lex validate || exit 1"
    ensures "git add .lex/extract/" + " 2>/dev/null" == "git add .lex/extract/ 2>/dev/null"
  {
  }

  lemma BeginsWithG(text: string)
    ensures IsOldCommand(text) ==> text != "" && text[0] == 'g'
  {
  }

  /** A line that leaves nothing of the user's: blank, or an old command in any padding. */
  predicate IsNobodys(line: string) {
    Trim(line) == "" || IsOldCommand(Trim(line))
  }

  lemma {:induction false} NobodysLeaveBlanks(lines: seq<string>)
    requires forall l <- lines :: IsNobodys(l)
    ensures IsPadding(Unlines(Scrubbed(lines)))
    ensures Count(lines, IsStart) == 0
  {
    if lines != [] {
      hide Trim, LEGACY, IsOldCommand;
      NobodysLeaveBlanks(lines[1..]);
      assert IsNobodys(lines[0]);
      OldCommands(Trim(lines[0]));
      NoMarker(lines[0]);
      AllWhite(lines[0]);
      if Trim(lines[0]) !in LEGACY {
        assert Scrubbed(lines) == [lines[0]] + Scrubbed(lines[1..]);
        assert IsPadding(lines[0]);
        BlankAndMore(lines[0], Scrubbed(lines[1..]));
      } else {
        assert Scrubbed(lines) == [] + Scrubbed(lines[1..]) == Scrubbed(lines[1..]);
      }
    }
  }

  lemma BlankAndMore(line: string, rest: seq<string>)
    requires IsPadding(line) && IsPadding(Unlines(rest))
    ensures IsPadding(Unlines([line] + rest))
  {
    UnlinesConcat([line], rest);
    OneLineText(line);
    assert IsPadding("\n");
  }

  lemma NoMarker(line: string)
    requires IsNobodys(line)
    ensures !IsStart(line)
  {
    hide IsOldCommand;
    assert MARKER_START[0] == '#' && |MARKER_START| == 52;
    BeginsWithG(Trim(line));
  }

  /** A hook with nothing in it but a shell's shebang, blank lines and old commands is git-lex's own, and is written
      anew: the shebang of `sh` and the section, and nothing else. */
  lemma OldHookReplaced(first: string, lines: seq<string>, body: seq<string>)
    requires Trim(first) == "#!/bin/sh" || Trim(first) == "#!/bin/bash" || IsNobodys(first)
    requires forall l <- lines :: IsNobodys(l)
    ensures InstalledLines([first] + lines, body) == ["#!/bin/sh"] + Section(body)
  {
    hide Trim, LEGACY, IsOldCommand, Section;
    NobodysLeaveBlanks(lines);
    ScrubbedJoins([first], lines);
    CountConcat([first], lines, IsStart);
    var kept := Unlines(Scrubbed(lines));
    if IsNobodys(first) {
      NobodysLeaveBlanks([first]);
      UnlinesConcat(Scrubbed([first]), Scrubbed(lines));
      assert IsPadding(Unlines(Scrubbed([first] + lines)));
      AllWhite(Unlines(Scrubbed([first] + lines)));
    } else {
      ShebangStays(first);
      UnlinesConcat([first], Scrubbed(lines));
      OneLineText(first);
      assert IsPadding("\n" + kept);
      FirstLineTrims(first, "\n" + kept);
      assert first + "\n" + kept == first + ("\n" + kept);
    }
  }

  lemma ShebangStays(first: string)
    requires Trim(first) == "#!/bin/sh" || Trim(first) == "#!/bin/bash"
    ensures Scrubbed([first]) == [first] && !IsStart(first) && Count([first], IsStart) == 0
  {
    hide IsOldCommand, LEGACY;
    OldCommands(Trim(first));
    BeginsWithG(Trim(first));
    assert |MARKER_START| == 52;
    assert [first][1..] == [] && [first] + [] == [first];
  }

  lemma FirstLineTrims(first: string, blanks: string)
    requires IsPadding(blanks)
    ensures Trim(first + blanks) == Trim(first)
    decreases |blanks|
  {
    if blanks == "" {
      assert first + blanks == first;
    } else {
      var init, last := blanks[..|blanks| - 1], blanks[|blanks| - 1];
      assert first + blanks == first + init + [last];
      FirstLineTrims(first, init);
      TrimLastWhite(first + init, last);
    }
  }
}
