/** The one frontmatter parser (`split_frontmatter`, src/lib.rs). */
module Frontmatter {
  import opened Wrappers
  import opened Text

  const FENCE := "---"

  /** The text after an opening fence. */
  function Opened(content: string): Option<string> {
    if StartsWith(content, "---\n") then Some(content[4..])
    else if StartsWith(content, "---\r\n") then Some(content[5..])
    else None
  }

  predicate Closes(line: string) {
    TrimEnd(line) == FENCE
  }

  /** What comes before the first closing piece, and what comes after it. */
  function Frame(pieces: seq<string>): Option<(string, string)> {
    if pieces == [] then None
    else if Closes(pieces[0]) then Some(("", Concat(pieces[1..])))
    else match Frame(pieces[1..])
      case Some((block, body)) => Some((pieces[0] + block, body))
      case None => None
  }

  function Framed(content: string): Option<(string, string)> {
    match Opened(content)
    case Some(after) => Frame(SplitInclusive(after))
    case None => None
  }

  lemma {:induction false} ConcatParts(a: seq<string>, b: seq<string>)
    ensures Concat(a + b) == Concat(a) + Concat(b)
  {
    if a == [] {
      assert a + b == b;
    } else {
      assert (a + b)[1..] == a[1..] + b;
      ConcatParts(a[1..], b);
    }
  }

  lemma ConcatSplitAt(text: string, pieces: seq<string>, i: nat)
    requires pieces == SplitInclusive(text) && i < |pieces|
    ensures text == Concat(pieces[..i]) + (pieces[i] + Concat(pieces[i + 1..]))
    ensures Concat(pieces[..i + 1]) == Concat(pieces[..i]) + pieces[i]
  {
    hide SplitInclusive;
    ConcatSplit(text);
    assert pieces == pieces[..i] + ([pieces[i]] + pieces[i + 1..]);
    ConcatParts(pieces[..i], [pieces[i]] + pieces[i + 1..]);
    assert ([pieces[i]] + pieces[i + 1..])[1..] == pieces[i + 1..];
    ConcatSnoc(pieces, i);
  }

  lemma CutAt(text: string, pieces: seq<string>, i: nat, offset: nat)
    requires pieces == SplitInclusive(text) && i < |pieces| && offset == |Concat(pieces[..i])|
    ensures offset + |pieces[i]| <= |text| && offset + |pieces[i]| == |Concat(pieces[..i + 1])|
    ensures text[..offset] == Concat(pieces[..i])
    ensures text[..offset + |pieces[i]|] == Concat(pieces[..i + 1])
    ensures text[offset + |pieces[i]|..] == Concat(pieces[i + 1..])
  {
    hide SplitInclusive, Concat;
    ConcatSplitAt(text, pieces, i);
  }

  /** `split_frontmatter`: a walk over the lines with a running offset. */
  method SplitFrontmatter(content: string) returns (block: Option<string>, body: string)
    ensures match Framed(content)
      case Some((fm, rest)) => block == Some(fm) && body == rest
      case None => block == None && body == content
  {
    var start := Opened(content);
    if start.None? {
      return None, content;
    }
    var after := start.value;
    var pieces := SplitInclusive(after);
    var offset := 0;
    FrameStart(pieces);
    for i := 0 to |pieces|
      invariant offset == |Concat(pieces[..i])| <= |after| && after[..offset] == Concat(pieces[..i])
      invariant FrameSoFar(pieces, i)
    {
      FrameStep(pieces, i);
      CutAt(after, pieces, i, offset);
      var line := pieces[i];
      if Closes(line) {
        return Some(after[..offset]), after[offset + |line|..];
      }
      offset := offset + |line|;
    }
    FrameEnd(pieces);
    return None, content;
  }

  /** The answer from line `i` on, with the lines before it in front. */
  ghost predicate FrameSoFar(pieces: seq<string>, i: nat)
    requires i <= |pieces|
  {
    match Frame(pieces[i..])
    case Some((fm, rest)) => Frame(pieces) == Some((Concat(pieces[..i]) + fm, rest))
    case None => Frame(pieces) == None
  }

  lemma FrameStart(pieces: seq<string>)
    ensures FrameSoFar(pieces, 0) && Concat(pieces[..0]) == ""
  {
    assert pieces[0..] == pieces && pieces[..0] == [];
    assert forall fm: string :: "" + fm == fm;
  }

  lemma FrameEnd(pieces: seq<string>)
    requires FrameSoFar(pieces, |pieces|)
    ensures Frame(pieces).None?
  {
    assert pieces[|pieces|..] == [];
  }

  lemma FrameStep(pieces: seq<string>, i: nat)
    requires i < |pieces| && FrameSoFar(pieces, i)
    ensures Closes(pieces[i]) ==> Frame(pieces) == Some((Concat(pieces[..i]), Concat(pieces[i + 1..])))
    ensures !Closes(pieces[i]) ==> FrameSoFar(pieces, i + 1)
  {
    hide Closes, Concat;
    FrameFrom(pieces, i);
    var before := Concat(pieces[..i]);
    assert before + "" == before;
    ConcatSnoc(pieces, i);
    if Frame(pieces[i + 1..]).Some? {
      Text.Regroup(before, pieces[i], Frame(pieces[i + 1..]).value.0);
    }
  }

  lemma ConcatSnoc(pieces: seq<string>, i: nat)
    requires i < |pieces|
    ensures Concat(pieces[..i + 1]) == Concat(pieces[..i]) + pieces[i]
  {
    assert pieces[..i + 1] == pieces[..i] + [pieces[i]];
    ConcatParts(pieces[..i], [pieces[i]]);
    assert [pieces[i]][1..] == [] && pieces[i] + "" == pieces[i];
  }

  lemma FrameFrom(pieces: seq<string>, i: nat)
    requires i < |pieces|
    ensures Frame(pieces[i..]) ==
      if Closes(pieces[i]) then Some(("", Concat(pieces[i + 1..])))
      else match Frame(pieces[i + 1..])
        case Some((block, body)) => Some((pieces[i] + block, body))
        case None => None
  {
    hide Closes;
    assert pieces[i..][1..] == pieces[i + 1..];
  }

  // ----- laws -----

  /** The lines of a block: none of them closes it. */
  predicate IsBlock(lines: seq<string>) {
    forall l <- lines :: IsLine(l) && !Closes(l)
  }

  lemma FirstPiece(line: string, rest: string)
    requires IsLine(line)
    ensures SplitInclusive(line + "\n" + rest) == [line + "\n"] + SplitInclusive(rest)
  {
    var s := line + "\n" + rest;
    assert s[..|line|] == line && s[|line|] == '\n';
    IndexOfUnique(s, '\n', |line|);
    assert s[..|line| + 1] == line + "\n" && s[|line| + 1..] == rest;
  }

  lemma ClosesWithBreak(line: string)
    ensures Closes(line + "\n") == Closes(line)
  {
    assert (line + "\n")[..|line|] == line && (line + "\n")[|line|] == '\n';
  }

  /** The lines of a block, and behind them a line that closes it, with or without a line break after it. */
  lemma {:induction false} FrameOfBlock(lines: seq<string>, closer: string, tail: string, body: string)
    requires IsBlock(lines) && Closes(closer) && SplitInclusive(tail) == [closer] + SplitInclusive(body)
    ensures Frame(SplitInclusive(Unlines(lines) + tail)) == Some((Unlines(lines), body))
  {
    hide Closes, SplitInclusive;
    if lines == [] {
      assert Unlines(lines) + tail == tail;
      var rest := SplitInclusive(body);
      assert ([closer] + rest)[1..] == rest;
      ConcatSplit(body);
    } else {
      var line := lines[0];
      assert line in lines && IsLine(line) && !Closes(line);
      FrameOfBlock(lines[1..], closer, tail, body);
      assert Unlines(lines) + tail == line + "\n" + (Unlines(lines[1..]) + tail);
      FirstPiece(line, Unlines(lines[1..]) + tail);
      ClosesWithBreak(line);
      var rest := SplitInclusive(Unlines(lines[1..]) + tail);
      assert ([line + "\n"] + rest)[1..] == rest;
    }
  }

  /** A line that closes a block: three dashes at its beginning, and nothing but white space after them. */
  predicate IsFence(line: string) {
    StartsWith(line, "---") && forall c <- line[3..] :: IsWhite(c)
  }

  lemma {:induction false} ClosesIff(line: string)
    ensures Closes(line) <==> IsFence(line)
  {
    TrimEndShape(line);
    if Closes(line) {
      assert forall i :: 0 <= i < |line| - 3 ==> line[3..][i] == line[i + 3];
    }
    if IsFence(line) {
      FenceTrims(line, TrimEnd(line));
    }
  }

  lemma FenceTrims(line: string, t: string)
    requires IsFence(line) && t <= line && (t == "" || !IsWhite(t[|t| - 1]))
    requires forall i :: |t| <= i < |line| ==> IsWhite(line[i])
    ensures t == FENCE
  {
    assert line[0] == '-' && line[1] == '-' && line[2] == '-';
    assert !IsWhite('-');
    assert |t| >= 3;
    assert forall i :: 3 <= i < |line| ==> line[i] == line[3..][i - 3];
    assert forall i :: 0 <= i < |t| ==> t[i] == line[i];
    assert |t| == 3;
  }

  /** Written between fences, a block is read back as that block and the rest as the body, whatever the rest is: the
      opening fence is three dashes and either line ending, the closing one three dashes and any white space, at the
      end of the document or before a line break. */
  lemma FramedBetween(opener: string, lines: seq<string>, closer: string, body: string)
    requires opener == "---\n" || opener == "---\r\n"
    requires (forall l <- lines :: IsLine(l) && !IsFence(l)) && IsLine(closer) && IsFence(closer)
    ensures Framed(opener + (Unlines(lines) + (closer + "\n" + body))) == Some((Unlines(lines), body))
    ensures Framed(opener + (Unlines(lines) + closer)) == Some((Unlines(lines), ""))
  {
    hide Frame, SplitInclusive, Closes, IsFence;
    forall l | l in lines ensures !Closes(l) {
      ClosesIff(l);
    }
    ClosesIff(closer);
    ClosesWithBreak(closer);
    FirstPiece(closer, body);
    FrameOfBlock(lines, closer + "\n", closer + "\n" + body, body);
    assert closer != "" by { FenceIsNotEmpty(closer); }
    LastPieceAlone(closer);
    FrameOfBlock(lines, closer, closer, "");
    OpenedIs(opener, Unlines(lines) + (closer + "\n" + body));
    OpenedIs(opener, Unlines(lines) + closer);
  }

  lemma FenceIsNotEmpty(line: string)
    ensures IsFence(line) ==> line != ""
  {
  }

  lemma LastPieceAlone(line: string)
    requires IsLine(line) && line != ""
    ensures SplitInclusive(line) == [line] + SplitInclusive("")
  {
  }

  lemma OpenedIs(opener: string, after: string)
    requires opener == "---\n" || opener == "---\r\n"
    ensures Opened(opener + after) == Some(after)
  {
    assert (opener + after)[|opener|..] == after;
    assert (opener + after)[3] == opener[3];
  }

  lemma FenceCloses()
    ensures Closes(FENCE) && IsLine(FENCE)
  {
  }

  /** A block written between fences is read back as that block and that body, whatever the body is. */
  lemma FramedBack(lines: seq<string>, body: string)
    requires IsBlock(lines)
    ensures Framed("---\n" + Unlines(lines) + "---\n" + body) == Some((Unlines(lines), body))
  {
    hide Framed, IsFence, Closes;
    FenceCloses();
    ClosesIff(FENCE);
    forall l | l in lines ensures !IsFence(l) {
      ClosesIff(l);
    }
    FramedBetween("---\n", lines, FENCE, body);
    assert "---\n" + (Unlines(lines) + (FENCE + "\n" + body)) == "---\n" + Unlines(lines) + "---\n" + body;
  }

  /** Conversely, what the parser answers is a block of lines that do not close it; opening fence, block,
      closing line and body make up the document. */
  lemma FramedShape(content: string) returns (lines: seq<string>, closer: string)
    requires Framed(content).Some?
    ensures var (block, body) := Framed(content).value;
      IsBlock(lines) && block == Unlines(lines) && Closes(closer)
      && (content == "---\n" + block + closer + body || content == "---\r\n" + block + closer + body)
  {
    hide Frame, SplitInclusive, Closes;
    var after := Opened(content).value;
    lines, closer := FrameShape(after);
    var (block, body) := Framed(content).value;
    if StartsWith(content, "---\n") {
      assert content == "---\n" + after;
      assert "---\n" + block + closer + body == "---\n" + (block + closer + body);
    } else {
      assert content == "---\r\n" + after;
      assert "---\r\n" + block + closer + body == "---\r\n" + (block + closer + body);
    }
  }

  lemma {:induction false} FrameShape(text: string) returns (lines: seq<string>, closer: string)
    requires Frame(SplitInclusive(text)).Some?
    ensures var (block, body) := Frame(SplitInclusive(text)).value;
      IsBlock(lines) && block == Unlines(lines) && Closes(closer) && text == block + closer + body
    decreases |text|
  {
    hide Closes, IsLine, IsBlock, SplitInclusive, Frame, Unlines, Concat;
    ConcatSplit(text);
    var pieces := SplitInclusive(text);
    FrameFirst(text);
    if Closes(pieces[0]) {
      lines, closer := [], pieces[0];
      NoBlock();
      assert "" + closer == closer;
    } else {
      LastHasNoTail(text);
      FirstIsLine(text);
      var line := text[..IndexOf(text, '\n')];
      var rest := text[|line| + 1..];
      lines, closer := FrameShape(rest);
      ClosesWithBreak(line);
      BlockCons(line, lines);
      var (block, body) := Frame(SplitInclusive(rest)).value;
      Regrouped(line + "\n", block, closer, body);
      UnlinesCons(line, lines);
      lines := [line] + lines;
    }
  }

  lemma FrameFirst(text: string)
    requires Frame(SplitInclusive(text)).Some?
    ensures text != "" && SplitInclusive(text) != []
      && text == SplitInclusive(text)[0] + Concat(SplitInclusive(text)[1..])
    ensures var pieces := SplitInclusive(text);
      (!Closes(pieces[0]) || Frame(pieces) == Some(("", Concat(pieces[1..]))))
      && (Closes(pieces[0]) || (Frame(pieces[1..]).Some?
            && Frame(pieces) == Some((pieces[0] + Frame(pieces[1..]).value.0, Frame(pieces[1..]).value.1))))
  {
    hide Closes;
    ConcatSplit(text);
  }

  lemma FirstIsLine(text: string)
    requires '\n' in text
    ensures var i := IndexOf(text, '\n');
      text == text[..i] + "\n" + text[i + 1..]
      && SplitInclusive(text)[0] == text[..i] + "\n" && SplitInclusive(text)[1..] == SplitInclusive(text[i + 1..])
  {
    var i := IndexOf(text, '\n');
    SplitFirstPiece(text);
    hide SplitInclusive, IndexOf;
    UpTo(text, i);
  }

  lemma UpTo(text: string, i: nat)
    requires i < |text| && text[i] == '\n'
    ensures text[..i + 1] == text[..i] + "\n"
  {
  }

  lemma Regrouped(a: string, b: string, c: string, d: string)
    ensures a + (b + c + d) == a + b + c + d
  {
  }

  lemma UnlinesCons(line: string, lines: seq<string>)
    ensures Unlines([line] + lines) == line + "\n" + Unlines(lines)
  {
    assert ([line] + lines)[1..] == lines;
  }

  lemma NoBlock()
    ensures IsBlock([]) && Unlines([]) == ""
  {
  }

  lemma BlockCons(line: string, lines: seq<string>)
    requires '\n' !in line && !Closes(line) && IsBlock(lines)
    ensures IsBlock([line] + lines)
  {
    hide Closes;
  }

  lemma LastHasNoTail(text: string)
    requires text != "" && Frame(SplitInclusive(text)).Some? && !Closes(SplitInclusive(text)[0])
    ensures '\n' in text
  {
    hide Closes, SplitInclusive;
    OneNeverCloses(text);
    if '\n' !in text {
      OnePiece(text);
    }
  }

  lemma OneNeverCloses(piece: string)
    ensures !Closes(piece) ==> Frame([piece]).None?
  {
    assert [piece][1..] == [];
  }
}
