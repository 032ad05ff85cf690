/** The string operations of the Rust standard library that the modelled code relies on. */
module Text {
  import opened Wrappers

  /** Unicode `White_Space`, which `str::trim` removes. */
  predicate IsWhite(c: char) {
    ('\t' <= c <= '\r') || c == ' ' || c == '\U{85}' || c == '\U{A0}' || c == '\U{1680}'
    || ('\U{2000}' <= c <= '\U{200A}') || c in {'\U{2028}', '\U{2029}', '\U{202F}', '\U{205F}', '\U{3000}'}
  }

  function TrimStart(s: string): string {
    if s != "" && IsWhite(s[0]) then TrimStart(s[1..]) else s
  }

  function TrimEnd(s: string): string {
    if s != "" && IsWhite(s[|s| - 1]) then TrimEnd(s[..|s| - 1]) else s
  }

  function Trim(s: string): string {
    TrimEnd(TrimStart(s))
  }

  predicate StartsWith(s: string, prefix: string) {
    prefix <= s
  }

  predicate EndsWith(s: string, suffix: string) {
    |suffix| <= |s| && s[|s| - |suffix|..] == suffix
  }

  /** `sub` occurs in `s` at `i`. */
  predicate OccursAt(s: string, sub: string, i: nat) {
    i + |sub| <= |s| && s[i..i + |sub|] == sub
  }

  ghost predicate Contains(s: string, sub: string) {
    exists i: nat :: OccursAt(s, sub, i)
  }

  /** `str::find`: the first occurrence. */
  function Find(s: string, sub: string): (r: Option<nat>)
    ensures r.Some? ==> OccursAt(s, sub, r.value) && forall j: nat :: j < r.value ==> !OccursAt(s, sub, j)
    ensures r.None? ==> !Contains(s, sub)
  {
    FindFrom(s, sub, 0)
  }

  function FindFrom(s: string, sub: string, from: nat): (r: Option<nat>)
    ensures r.Some? ==> from <= r.value && OccursAt(s, sub, r.value)
    ensures r.Some? ==> forall j: nat :: from <= j < r.value ==> !OccursAt(s, sub, j)
    ensures r.None? ==> forall j: nat :: from <= j ==> !OccursAt(s, sub, j)
    decreases |s| - from
  {
    if from + |sub| > |s| then None
    else if OccursAt(s, sub, from) then Some(from)
    else FindFrom(s, sub, from + 1)
  }

  /** `str::contains` */
  predicate Has(s: string, sub: string)
    ensures Has(s, sub) <==> Contains(s, sub)
  {
    Find(s, sub).Some?
  }

  function IndexOf(s: string, c: char): (i: nat)
    requires c in s
    ensures i < |s| && s[i] == c && c !in s[..i]
  {
    if s[0] == c then 0 else 1 + IndexOf(s[1..], c)
  }

  lemma IndexOfUnique(s: string, c: char, i: nat)
    requires i < |s| && s[i] == c && c !in s[..i]
    ensures c in s && IndexOf(s, c) == i
  {
    var j := IndexOf(s, c);
    assert forall k :: 0 <= k < i ==> s[k] == s[..i][k];
    assert forall k :: 0 <= k < j ==> s[k] == s[..j][k];
  }

  /** `split(c)`: always at least one piece. */
  function Split(s: string, c: char): (parts: seq<string>)
    ensures |parts| >= 1
    decreases |s|
  {
    if c !in s then [s] else [s[..IndexOf(s, c)]] + Split(s[IndexOf(s, c) + 1..], c)
  }

  function Join(parts: seq<string>, sep: string): string {
    if parts == [] then ""
    else if |parts| == 1 then parts[0]
    else parts[0] + sep + Join(parts[1..], sep)
  }

  lemma SplitFirst(a: string, c: char, b: string)
    requires c !in a
    ensures Split(a + [c] + b, c) == [a] + Split(b, c)
  {
    var s := a + [c] + b;
    assert s[..|a|] == a && s[|a|] == c;
    IndexOfUnique(s, c, |a|);
    assert s[|a| + 1..] == b;
  }

  lemma SplitStep(s: string, c: char)
    requires c in s
    ensures var i := IndexOf(s, c);
      s == s[..i] + [c] + s[i + 1..] && c !in s[..i] && Split(s, c) == [s[..i]] + Split(s[i + 1..], c)
  {
  }

  /** Splitting is compositional at any separator. */
  lemma {:induction false} SplitAt(a: string, c: char, b: string)
    ensures Split(a + [c] + b, c) == Split(a, c) + Split(b, c)
    decreases |a|, 1
  {
    hide Split, IndexOf;
    if c !in a {
      SplitFirst(a, c, b);
      NothingToSplit(a, c);
    } else {
      SplitStep(a, c);
      SplitAtFirst(a[..IndexOf(a, c)], a[IndexOf(a, c) + 1..], c, b);
    }
  }

  lemma NothingToSplit(s: string, c: char)
    requires c !in s
    ensures Split(s, c) == [s]
  {
  }

  lemma {:induction false} SplitAtFirst(head: string, rest: string, c: char, b: string)
    requires c !in head
    ensures Split(head + [c] + rest + [c] + b, c) == [head] + Split(rest, c) + Split(b, c)
    decreases |head| + 1 + |rest|, 0
  {
    hide Split, IndexOf;
    SplitAt(rest, c, b);
    assert head + [c] + rest + [c] + b == head + [c] + (rest + [c] + b);
    SplitFirst(head, c, rest + [c] + b);
    Regroup([head], Split(rest, c), Split(b, c));
  }

  lemma Regroup<T>(a: seq<T>, b: seq<T>, c: seq<T>)
    ensures a + (b + c) == (a + b) + c
  {
  }

  lemma {:induction false} SplitPieces(s: string, c: char)
    ensures forall p <- Split(s, c) :: c !in p
    decreases |s|
  {
    if c in s {
      SplitPieces(s[IndexOf(s, c) + 1..], c);
    }
  }

  /** Joining the pieces restores the text. */
  lemma {:induction false} JoinSplit(s: string, c: char)
    ensures Join(Split(s, c), [c]) == s
    decreases |s|
  {
    if c in s {
      var i := IndexOf(s, c);
      JoinSplit(s[i + 1..], c);
      assert s == s[..i] + [c] + s[i + 1..];
      assert Split(s, c)[1..] == Split(s[i + 1..], c);
    }
  }

  /** Splitting a join restores the pieces. */
  lemma {:induction false} SplitJoin(parts: seq<string>, c: char)
    requires |parts| >= 1 && forall p <- parts :: c !in p
    ensures Split(Join(parts, [c]), c) == parts
  {
    assert parts[0] in parts && forall p <- parts[1..] :: p in parts;
    if |parts| > 1 {
      SplitJoin(parts[1..], c);
      assert Join(parts, [c]) == parts[0] + [c] + Join(parts[1..], [c]);
      hide Join, Split;
      SplitFirst(parts[0], c, Join(parts[1..], [c]));
      assert parts == [parts[0]] + parts[1..];
    } else {
      assert parts == [parts[0]];
      NothingToSplit(parts[0], c);
    }
  }

  /** `str::lines`: pieces ending in `\n` or `\r\n`, and a last piece that needs no ending. */
  function Lines(s: string): seq<string>
    decreases |s|
  {
    if s == "" then []
    else if '\n' !in s then [s]
    else [StripCR(s[..IndexOf(s, '\n')])] + Lines(s[IndexOf(s, '\n') + 1..])
  }

  function StripCR(s: string): string {
    if s != "" && s[|s| - 1] == '\r' then s[..|s| - 1] else s
  }

  /** Every line followed by `\n`. */
  function Unlines(lines: seq<string>): string {
    if lines == [] then "" else lines[0] + "\n" + Unlines(lines[1..])
  }

  lemma LinesFirst(a: string, b: string)
    requires '\n' !in a
    ensures Lines(a + "\n" + b) == [StripCR(a)] + Lines(b)
  {
    var s := a + "\n" + b;
    assert s[..|a|] == a && s[|a|] == '\n';
    IndexOfUnique(s, '\n', |a|);
    assert s[|a| + 1..] == b;
  }

  predicate IsLine(s: string) {
    '\n' !in s
  }

  lemma {:induction false} LinesAreLines(s: string)
    ensures forall l <- Lines(s) :: IsLine(l)
    decreases |s|
  {
    if s != "" && '\n' in s {
      LinesAreLines(s[IndexOf(s, '\n') + 1..]);
    }
  }

  /** Reading back written lines loses one `\r` at the end of a line, and nothing else. */
  lemma {:induction false} LinesUnlines(lines: seq<string>)
    requires forall l <- lines :: IsLine(l)
    ensures Lines(Unlines(lines)) == StripAll(lines)
  {
    if lines != [] {
      LinesUnlines(lines[1..]);
      assert IsLine(lines[0]);
      LinesFirst(lines[0], Unlines(lines[1..]));
    }
  }

  function StripAll(lines: seq<string>): (r: seq<string>)
    ensures |r| == |lines| && forall i :: 0 <= i < |r| ==> r[i] == StripCR(lines[i])
  {
    if lines == [] then [] else [StripCR(lines[0])] + StripAll(lines[1..])
  }

  lemma {:induction false} UnlinesConcat(a: seq<string>, b: seq<string>)
    ensures Unlines(a + b) == Unlines(a) + Unlines(b)
  {
    if a == [] {
      assert a + b == b;
    } else {
      assert (a + b)[1..] == a[1..] + b;
      UnlinesConcat(a[1..], b);
    }
  }

  lemma ContainsSub(s: string, a: nat, b: nat, sub: string)
    requires a <= b <= |s| && Contains(s[a..b], sub)
    ensures Contains(s, sub)
  {
    var i: nat :| OccursAt(s[a..b], sub, i);
    SliceOfSlice(s, a, b, i, i + |sub|);
    assert OccursAt(s, sub, a + i);
  }

  lemma ContainsTransitive(s: string, t: string, u: string)
    requires Contains(s, t) && Contains(t, u)
    ensures Contains(s, u)
  {
    var i: nat :| OccursAt(s, t, i);
    ContainsSub(s, i, i + |t|, u);
  }

  lemma SliceOfSlice<T>(s: seq<T>, a: nat, b: nat, i: nat, j: nat)
    requires a <= b <= |s| && i <= j <= b - a
    ensures s[a..b][i..j] == s[a + i..a + j]
  {
    var x, y := s[a..b][i..j], s[a + i..a + j];
    assert |x| == |y|;
    assert forall k :: 0 <= k < |x| ==> x[k] == y[k];
  }

  // ----- trimming -----

  lemma {:induction false} TrimStartShape(s: string)
    ensures TrimStart(s) == "" || !IsWhite(TrimStart(s)[0])
    ensures |TrimStart(s)| <= |s| && s[|s| - |TrimStart(s)|..] == TrimStart(s)
    ensures forall i :: 0 <= i < |s| - |TrimStart(s)| ==> IsWhite(s[i])
  {
    if s != "" && IsWhite(s[0]) {
      TrimStartShape(s[1..]);
      var k := |s| - |TrimStart(s)|;
      assert s[k..] == s[1..][k - 1..];
      assert forall i :: 1 <= i < k ==> s[i] == s[1..][i - 1];
    }
  }

  lemma {:induction false} TrimEndShape(s: string)
    ensures TrimEnd(s) == "" || !IsWhite(TrimEnd(s)[|TrimEnd(s)| - 1])
    ensures TrimEnd(s) <= s
    ensures forall i :: |TrimEnd(s)| <= i < |s| ==> IsWhite(s[i])
  {
    if s != "" && IsWhite(s[|s| - 1]) {
      TrimEndShape(s[..|s| - 1]);
    }
  }

  /** Nothing to trim: the text does not begin or end with white space. */
  predicate IsTrimmed(s: string) {
    s == "" || (!IsWhite(s[0]) && !IsWhite(s[|s| - 1]))
  }

  lemma TrimIsTrimmed(s: string)
    ensures IsTrimmed(Trim(s)) && Trim(Trim(s)) == Trim(s)
    ensures IsTrimmed(s) <==> Trim(s) == s
  {
    TrimStartShape(s);
    TrimEndShape(TrimStart(s));
    TrimmedStays(Trim(s));
    if IsTrimmed(s) {
      TrimmedStays(s);
    }
  }

  lemma TrimmedStays(s: string)
    requires IsTrimmed(s)
    ensures Trim(s) == s
  {
  }

  /** Trimming leaves nothing exactly when there is only white space. */
  lemma AllWhite(s: string)
    ensures Trim(s) == "" <==> forall c <- s :: IsWhite(c)
  {
    TrimStartShape(s);
    TrimEndShape(TrimStart(s));
    var k := |s| - |TrimStart(s)|;
    assert forall i :: k <= i < |s| ==> s[i] == TrimStart(s)[i - k];
    assert TrimStart(s) != "" ==> TrimStart(s)[0] == s[k];
  }

  /** The trimmed text is a piece of the text. */
  lemma TrimContained(s: string)
    ensures Contains(s, Trim(s))
  {
    TrimStartShape(s);
    TrimEndShape(TrimStart(s));
    hide TrimStart, TrimEnd, OccursAt;
    PrefixOfSuffix(s, |s| - |TrimStart(s)|, Trim(s));
  }

  lemma PrefixOfSuffix(s: string, k: nat, t: string)
    requires k <= |s| && t <= s[k..]
    ensures OccursAt(s, t, k)
  {
    assert s[k..] == s[k..|s|];
    SliceOfSlice(s, k, |s|, 0, |t|);
  }

  function LastIndexOf(s: string, c: char): (i: nat)
    requires c in s
    ensures i < |s| && s[i] == c && c !in s[i + 1..]
  {
    if s[|s| - 1] == c then |s| - 1
    else
      assert s == s[..|s| - 1] + [s[|s| - 1]];
      var i := LastIndexOf(s[..|s| - 1], c);
      assert s[i + 1..] == s[..|s| - 1][i + 1..] + [s[|s| - 1]];
      i
  }

  lemma OneLineText(line: string)
    ensures Unlines([line]) == line + "\n"
  {
    assert line + "\n" + "" == line + "\n";
  }

  lemma {:induction false} JoinUnlines(lines: seq<string>)
    requires lines != []
    ensures Join(lines, "\n") + "\n" == Unlines(lines)
  {
    if |lines| == 1 {
      OneLineText(lines[0]);
      assert lines == [lines[0]];
    } else {
      JoinUnlines(lines[1..]);
      assert lines[0] + "\n" + Join(lines[1..], "\n") + "\n" == lines[0] + "\n" + (Join(lines[1..], "\n") + "\n");
    }
  }

  lemma {:induction false} TrimLastWhite(s: string, c: char)
    requires IsWhite(c)
    ensures Trim(s + [c]) == Trim(s)
  {
    if s == "" || !IsWhite(s[0]) {
      if s == "" {
        assert (s + [c])[1..] == "";
      } else {
        assert (s + [c])[..|s|] == s;
      }
    } else {
      assert (s + [c])[1..] == s[1..] + [c];
      TrimLastWhite(s[1..], c);
    }
  }

  /** White space around a trimmed text is trimmed. */
  lemma {:induction false} TrimPadded(before: string, text: string, after: string)
    requires (forall c <- before :: IsWhite(c)) && (forall c <- after :: IsWhite(c)) && IsTrimmed(text)
    ensures Trim(before + text + after) == text
  {
    if after != "" {
      var init, last := after[..|after| - 1], after[|after| - 1];
      assert before + text + after == before + text + init + [last];
      TrimPadded(before, text, init);
      TrimLastWhite(before + text + init, last);
    } else if before != "" {
      assert (before + text + after)[1..] == before[1..] + text + after;
      TrimPadded(before[1..], text, after);
    } else {
      assert before + text + after == text;
      TrimmedStays(text);
    }
  }

  lemma StripTrim(l: string)
    ensures Trim(StripCR(l)) == Trim(l)
  {
    if l != "" && l[|l| - 1] == '\r' {
      TrimLastWhite(l[..|l| - 1], '\r');
      assert l == l[..|l| - 1] + ['\r'];
    }
  }

  /** `split_inclusive('\n')` */
  function SplitInclusive(s: string): seq<string>
    decreases |s|
  {
    if s == "" then []
    else if '\n' !in s then [s]
    else [s[..IndexOf(s, '\n') + 1]] + SplitInclusive(s[IndexOf(s, '\n') + 1..])
  }

  function Concat(pieces: seq<string>): string {
    if pieces == [] then "" else pieces[0] + Concat(pieces[1..])
  }

  /** The pieces are the text. */
  lemma {:induction false} ConcatSplit(text: string)
    ensures Concat(SplitInclusive(text)) == text
    decreases |text|
  {
    hide SplitInclusive, IndexOf, Concat;
    if text == "" || '\n' !in text {
      OnePiece(text);
    } else {
      SplitFirstPiece(text);
      ConcatSplit(text[IndexOf(text, '\n') + 1..]);
      ConcatCons(text[..IndexOf(text, '\n') + 1], SplitInclusive(text[IndexOf(text, '\n') + 1..]));
    }
  }

  lemma OnePiece(text: string)
    requires '\n' !in text
    ensures SplitInclusive(text) == (if text == "" then [] else [text]) && Concat(SplitInclusive(text)) == text
  {
    assert [text][1..] == [] && text + "" == text;
  }

  lemma SplitFirstPiece(text: string)
    requires '\n' in text
    ensures var i := IndexOf(text, '\n');
      SplitInclusive(text) == [text[..i + 1]] + SplitInclusive(text[i + 1..]) && text == text[..i + 1] + text[i + 1..]
  {
  }

  lemma ConcatCons(piece: string, pieces: seq<string>)
    ensures Concat([piece] + pieces) == piece + Concat(pieces)
  {
    assert ([piece] + pieces)[1..] == pieces;
  }

  /** `trim_matches(c)` */
  function TrimMatches(s: string, c: char): string {
    if s != "" && s[0] == c then TrimMatches(s[1..], c)
    else if s != "" && s[|s| - 1] == c then TrimMatches(s[..|s| - 1], c)
    else s
  }

  lemma NoScheme(s: string)
    requires ':' !in s
    ensures !Has(s, "://")
  {
    assert forall i: nat :: OccursAt(s, "://", i) ==> s[i..i + 3][0] == s[i];
  }
}
