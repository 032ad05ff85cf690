/** A document's link lines (`extract_md_link_lines`, src/extraction.rs) and the name test that
    decides which cached documents a file's arrival or departure can touch
    (`reference_needle`, src/walkcache.rs). */
module Links {
  import opened Wrappers
  import opened Text
  import opened Utf8
  import opened PercentCoding
  import opened Paths

  /** What the markdown parser reports, in document order. */
  datatype Node = InlineLink(dest: string) | Autolink(url: string)

  function LineOf(node: Node, relpath: string, index: set<string>): seq<string> {
    match node
    case Autolink(url) => if url == "" then [] else ["md.externalLink | hasValue | " + url]
    case InlineLink(dest) =>
      if dest == "" then []
      else if IsExternal(dest) then ["md.externalLink | hasValue | " + dest]
      else if Decoded(PathPart(dest)) == "" then []
      else match ResolvedLink(dest, DocDir(relpath))
        case Some(path) =>
          if path in index then [ResolvedLine(relpath, path)] else [UnresolvedLine(dest)]
        case None => [UnresolvedLine(dest)]
  }

  function LinkLines(nodes: seq<Node>, relpath: string, index: set<string>): seq<string> {
    if nodes == [] then []
    else LineOf(nodes[0], relpath, index) + LinkLines(nodes[1..], relpath, index)
  }

  // ----- which lines a file's arrival or departure changes -----

  /** The file an internal destination names, seen from the document. */
  function LinkTarget(node: Node, relpath: string): Option<string> {
    if node.InlineLink? && node.dest != "" && !IsExternal(node.dest) then ResolvedLink(node.dest, DocDir(relpath))
    else None
  }

  function SymmetricDifference(a: set<string>, b: set<string>): set<string> {
    (a - b) + (b - a)
  }

  /** The file it names is in one index and not in the other. */
  predicate Moves(node: Node, relpath: string, a: set<string>, b: set<string>) {
    LinkTarget(node, relpath).Some? && LinkTarget(node, relpath).value in SymmetricDifference(a, b)
  }

  function ResolvedLine(relpath: string, path: string): string {
    relpath + " | linksTo | " + path
  }

  function UnresolvedLine(dest: string): string {
    "md.unresolvedLink | hasValue | " + dest
  }

  /** The document's own path begins like the key of a link line. */
  predicate IsKeyLike(relpath: string) {
    StartsWith(relpath, "md.")
  }

  lemma LineHead(relpath: string, path: string, dest: string)
    requires !IsKeyLike(relpath)
    ensures ResolvedLine(relpath, path) != UnresolvedLine(dest)
    ensures ResolvedLine(relpath, path) != "md.externalLink | hasValue | " + dest
  {
    var l := ResolvedLine(relpath, path);
    if |relpath| >= 3 {
      assert l[..3] == relpath[..3] != "md.";
    } else {
      assert l[|relpath|] == ' ' && ' ' !in "md.";
    }
  }

  /** A node's line is the same under two indexes exactly when the file it names did not come or go. */
  lemma LineMovesIff(node: Node, relpath: string, a: set<string>, b: set<string>)
    ensures |LineOf(node, relpath, a)| == |LineOf(node, relpath, b)|
    ensures !Moves(node, relpath, a, b) ==> LineOf(node, relpath, a) == LineOf(node, relpath, b)
    ensures !IsKeyLike(relpath) ==>
      (LineOf(node, relpath, a) == LineOf(node, relpath, b) <==> !Moves(node, relpath, a, b))
  {
    if Moves(node, relpath, a, b) && !IsKeyLike(relpath) {
      LineHead(relpath, LinkTarget(node, relpath).value, node.dest);
    }
  }

  predicate AnyMoves(nodes: seq<Node>, relpath: string, a: set<string>, b: set<string>) {
    exists n <- nodes :: Moves(n, relpath, a, b)
  }

  /** A document's link lines, likewise: exactly when no file any of its links names came or went. */
  lemma {:induction false} LinesMoveIff(nodes: seq<Node>, relpath: string, a: set<string>, b: set<string>)
    ensures |LinkLines(nodes, relpath, a)| == |LinkLines(nodes, relpath, b)|
    ensures !AnyMoves(nodes, relpath, a, b) ==> LinkLines(nodes, relpath, a) == LinkLines(nodes, relpath, b)
    ensures !IsKeyLike(relpath) ==>
      (LinkLines(nodes, relpath, a) == LinkLines(nodes, relpath, b) <==> !AnyMoves(nodes, relpath, a, b))
  {
    if nodes != [] {
      hide LineOf, Moves;
      LineMovesIff(nodes[0], relpath, a, b);
      LinesMoveIff(nodes[1..], relpath, a, b);
      assert nodes == [nodes[0]] + nodes[1..];
      var k := |LineOf(nodes[0], relpath, a)|;
      assert LinkLines(nodes, relpath, a)[..k] == LineOf(nodes[0], relpath, a);
      assert LinkLines(nodes, relpath, b)[..k] == LineOf(nodes[0], relpath, b);
      assert LinkLines(nodes, relpath, a)[k..] == LinkLines(nodes[1..], relpath, a);
      assert LinkLines(nodes, relpath, b)[k..] == LinkLines(nodes[1..], relpath, b);
    }
  }

  /** Every line of a document comes from one of its nodes. */
  lemma {:induction false} LineFromNode(nodes: seq<Node>, relpath: string, index: set<string>, line: string)
    ensures line in LinkLines(nodes, relpath, index) <==> exists n <- nodes :: line in LineOf(n, relpath, index)
  {
    hide LineOf;
    if nodes != [] {
      LineFromNode(nodes[1..], relpath, index, line);
      assert nodes == [nodes[0]] + nodes[1..];
    }
  }

  /** The set of lines changes too: the line of a link that moved is there under one index only. */
  lemma MovedLineIsNew(nodes: seq<Node>, relpath: string, a: set<string>, b: set<string>)
    requires AnyMoves(nodes, relpath, a, b) && !IsKeyLike(relpath)
    ensures exists line :: (line in LinkLines(nodes, relpath, a)) != (line in LinkLines(nodes, relpath, b))
  {
    var n :| n in nodes && Moves(n, relpath, a, b);
    var line := ResolvedLine(relpath, LinkTarget(n, relpath).value);
    LineFromNode(nodes, relpath, a, line);
    LineFromNode(nodes, relpath, b, line);
    forall m | m in nodes
      ensures line in LineOf(m, relpath, a) ==> LinkTarget(n, relpath).value in a
      ensures line in LineOf(m, relpath, b) ==> LinkTarget(n, relpath).value in b
    {
      OnlyItsOwnLine(m, relpath, a, LinkTarget(n, relpath).value);
      OnlyItsOwnLine(m, relpath, b, LinkTarget(n, relpath).value);
    }
    assert LinkTarget(n, relpath).value in a ==> line in LineOf(n, relpath, a);
    assert LinkTarget(n, relpath).value in b ==> line in LineOf(n, relpath, b);
  }

  lemma OnlyItsOwnLine(node: Node, relpath: string, index: set<string>, path: string)
    requires !IsKeyLike(relpath)
    ensures ResolvedLine(relpath, path) in LineOf(node, relpath, index) ==> path in index
  {
    if node.Autolink? {
      LineHead(relpath, path, node.url);
    } else {
      LineHead(relpath, path, node.dest);
      if LinkTarget(node, relpath).Some? {
        var other := LinkTarget(node, relpath).value;
        SamePrefix(relpath + " | linksTo | ", path, other);
      }
    }
  }

  lemma SamePrefix(head: string, a: string, b: string)
    ensures head + a == head + b <==> a == b
  {
    assert (head + a)[|head|..] == a && (head + b)[|head|..] == b;
  }

  // ----- the name test -----

  /** The characters percent-encoding leaves alone: RFC 3986's unreserved set. */
  predicate IsUrlSafe(c: char) {
    ('a' <= c <= 'z') || ('A' <= c <= 'Z') || ('0' <= c <= '9') || c in {'-', '_', '.', '~'}
  }

  function FileName(rel: string): string {
    var segs := Split(rel, '/');
    segs[|segs| - 1]
  }

  function LastDot(s: string): Option<nat> {
    if s == "" then None
    else if s[|s| - 1] == '.' then Some(|s| - 1)
    else LastDot(s[..|s| - 1])
  }

  /** `rsplit_once('.')`, keeping the whole name when nothing precedes the dot. */
  function Stem(name: string): string {
    match LastDot(name)
    case Some(i) => if i > 0 && i <= |name| then name[..i] else name
    case None => name
  }

  /** `split` at every character that is not URL-safe. */
  function SafeRuns(s: string): seq<string> {
    if s == "" then [""]
    else
      var rest := SafeRuns(s[1..]);
      if !IsUrlSafe(s[0]) then [""] + rest
      else if rest == [] then [[s[0]]]
      else [[s[0]] + rest[0]] + rest[1..]
  }

  /** `max_by_key(len)`: among the longest, the last. */
  function LongestRun(runs: seq<string>): string {
    if runs == [] then ""
    else
      var rest := LongestRun(runs[1..]);
      if |runs[0]| > |rest| then runs[0] else rest
  }

  function ReferenceNeedle(rel: string): Option<string> {
    var run := LongestRun(SafeRuns(Stem(FileName(rel))));
    if run == "" then None else Some(run)
  }

  ghost predicate IsSafeRun(w: string) {
    forall c <- w :: IsUrlSafe(c)
  }

  lemma {:induction false} SafeRunsOccur(s: string)
    ensures SafeRuns(s) != [] && SafeRuns(s)[0] <= s && IsSafeRun(SafeRuns(s)[0])
    ensures forall w <- SafeRuns(s) :: IsSafeRun(w) && Contains(s, w)
  {
    if s == "" {
      assert OccursAt("", "", 0);
    } else {
      hide OccursAt;
      SafeRunsOccur(s[1..]);
      var rest := SafeRuns(s[1..]);
      forall w | w in rest
        ensures Contains(s, w)
      {
        hide SafeRuns, IsSafeRun;
        TailContains(s, w);
      }
      var first := SafeRuns(s)[0];
      PrefixOccurs(s, first);
      assert IsUrlSafe(s[0]) ==> first == [s[0]] + rest[0];
      assert forall w <- SafeRuns(s) :: w == first || w in rest;
    }
  }

  lemma TailContains(s: string, w: string)
    requires s != "" && Contains(s[1..], w)
    ensures Contains(s, w)
  {
    assert s[1..] == s[1..|s|];
    ContainsSub(s, 1, |s|, w);
  }

  lemma PrefixOccurs(s: string, w: string)
    ensures w <= s ==> Contains(s, w)
  {
    if w <= s {
      assert OccursAt(s, w, 0);
    }
  }

  lemma LongestRunIsOne(runs: seq<string>)
    ensures LongestRun(runs) == "" || LongestRun(runs) in runs
  {
  }

  lemma StemIsPrefix(name: string)
    ensures Stem(name) <= name
  {
  }

  lemma {:induction false} LastDotIsLast(s: string)
    ensures LastDot(s).None? <==> '.' !in s
    ensures LastDot(s).Some? ==> LastDot(s).value < |s| && s[LastDot(s).value] == '.'
    ensures LastDot(s).Some? ==> '.' !in s[LastDot(s).value + 1..]
  {
    if s != "" && s[|s| - 1] != '.' {
      LastDotIsLast(s[..|s| - 1]);
      if LastDot(s).Some? {
        var i := LastDot(s).value;
        assert s[i + 1..] == s[..|s| - 1][i + 1..] + [s[|s| - 1]];
      }
    }
  }

  /** The needle is a run of URL-safe characters in the part of the name every reference keeps. */
  lemma NeedleInName(name: string, rel: string)
    requires FileName(rel) == name && ReferenceNeedle(rel).Some?
    ensures IsSafeRun(ReferenceNeedle(rel).value) && ReferenceNeedle(rel).value != ""
    ensures Contains(Stem(name), ReferenceNeedle(rel).value)
  {
    SafeRunsOccur(Stem(name));
    LongestRunIsOne(SafeRuns(Stem(name)));
  }

  // ----- decoding keeps safe runs -----

  /** No escape in the text spells a URL-safe character: what every encoder guarantees. */
  predicate KeepsSafeCharacters(s: string) {
    s != "" ==>
      (OpensCharEscape(s) ==> !IsUrlSafe(HexPair(s[1] as int, s[2] as int).value as char))
      && KeepsSafeCharacters(s[1..])
  }

  lemma HighByteHighChar(b: seq<Byte>)
    requires b != [] && b[0] >= 0x80
    ensures FirstChar(b) >= '\U{80}'
  {
  }

  /** A run of continuation bytes reads as that many replacement characters. */
  lemma {:induction false} LossyTails(b: seq<Byte>, m: nat)
    requires m <= |b| && forall i :: 0 <= i < m ==> IsTail(b[i])
    ensures |Lossy(b)| >= m && Lossy(b)[m..] == Lossy(b[m..])
    ensures forall i :: 0 <= i < m ==> Lossy(b)[i] == REPLACEMENT
  {
    if m == 0 {
      assert b[0..] == b;
    } else {
      assert WellFormedRun(b) == 1;
      LossyTails(b[1..], m - 1);
      assert b[1..][m - 1..] == b[m..];
      assert Lossy(b) == [REPLACEMENT] + Lossy(b[1..]);
      assert Lossy(b)[m..] == Lossy(b[1..])[m - 1..];
    }
  }

  lemma RunIsTails(b: seq<Byte>)
    requires b != []
    ensures forall i :: 1 <= i < WellFormedRun(b) ==> IsTail(b[i])
  {
  }

  /** One byte in front: it reads as one character, perhaps swallowing replacement characters. */
  lemma LossyPush(v: Byte, rest: seq<Byte>)
    ensures var m := WellFormedRun([v] + rest) - 1;
      m <= |Lossy(rest)| && Lossy([v] + rest) == [FirstChar([v] + rest)] + Lossy(rest)[m..]
      && forall i :: 0 <= i < m ==> Lossy(rest)[i] == REPLACEMENT
  {
    var b := [v] + rest;
    var m := WellFormedRun(b) - 1;
    RunIsTails(b);
    assert forall i :: 0 <= i < m ==> rest[i] == b[i + 1];
    LossyTails(rest, m);
    assert b[m + 1..] == rest[m..];
  }

  lemma DecodedEmpty()
    ensures Decoded("") == ""
  {
  }

  lemma DecodedLiteral(s: string)
    requires s != "" && !OpensCharEscape(s)
    ensures Decoded(s) == [s[0]] + Decoded(s[1..])
  {
    DecodeChars(s);
    LossyCons(s[0], DecodeBytes(Bytes(s[1..])));
  }

  /** An escape reads as one character, swallowing only replacement characters from what follows it. */
  lemma DecodedEscape(s: string) returns (m: nat)
    requires OpensCharEscape(s)
    ensures m <= |Decoded(s[3..])| && Decoded(s) != "" && Decoded(s)[1..] == Decoded(s[3..])[m..]
    ensures |Decoded(s)| == 1 + |Decoded(s[3..])| - m
    ensures forall i :: 0 <= i < m ==> Decoded(s[3..])[i] == REPLACEMENT
    ensures KeepsSafeCharacters(s) ==> !IsUrlSafe(Decoded(s)[0])
  {
    DecodeChars(s);
    var rest := DecodeBytes(Bytes(s[3..]));
    var v := HexPair(s[1] as int, s[2] as int).value;
    LossyPush(v, rest);
    m := WellFormedRun([v] + rest) - 1;
    if v >= 0x80 {
      HighByteHighChar([v] + rest);
    }
  }

  lemma {:induction false} KeepsSafeDrop(s: string, n: nat)
    requires KeepsSafeCharacters(s) && n <= |s|
    ensures KeepsSafeCharacters(s[n..])
  {
    if n == 0 {
      assert s[0..] == s;
    } else {
      assert s[n..] == s[1..][n - 1..];
      KeepsSafeDrop(s[1..], n - 1);
    }
  }

  /** A safe run at the front of the decoded text stands at the front of the written text. */
  lemma {:induction false} SafePrefixKept(s: string, w: string)
    requires KeepsSafeCharacters(s) && IsSafeRun(w) && w <= Decoded(s)
    ensures w <= s
  {
    DecodedEmpty();
    if w != "" {
      assert IsUrlSafe(w[0]);
      if OpensCharEscape(s) {
        var _ := DecodedEscape(s);
      } else if s != "" {
        DecodedLiteral(s);
        SafePrefixKept(s[1..], w[1..]);
      }
    }
  }

  lemma ContainsInSuffix(s: string, n: nat, w: string)
    requires n <= |s| && Contains(s[n..], w)
    ensures Contains(s, w)
  {
    assert s[n..] == s[n..|s|];
    ContainsSub(s, n, |s|, w);
  }

  lemma ContainsPrefix(s: string, w: string)
    requires w <= s
    ensures Contains(s, w)
  {
    assert OccursAt(s, w, 0);
  }

  lemma OccursAtFront(s: string, w: string)
    requires OccursAt(s, w, 0)
    ensures w <= s
  {
  }

  lemma OccursInEmpty(w: string, k: nat)
    requires OccursAt("", w, k)
    ensures k == 0
  {
  }

  /** A safe run anywhere in the decoded text occurs in the written text. */
  lemma {:induction false} SafeRunKept(s: string, w: string, k: nat)
    requires KeepsSafeCharacters(s) && IsSafeRun(w) && OccursAt(Decoded(s), w, k)
    ensures Contains(s, w)
    decreases |s|
  {
    hide KeepsSafeCharacters, Decoded, IsSafeRun, OccursAt, Contains;
    DecodedEmpty();
    if k == 0 {
      OccursAtFront(Decoded(s), w);
      SafePrefixKept(s, w);
      ContainsPrefix(s, w);
    } else if s == "" {
      OccursInEmpty(w, k);
    } else if OpensCharEscape(s) {
      var m := DecodedEscape(s);
      OccursAfterDrop(Decoded(s), Decoded(s[3..]), m, w, k);
      KeepsSafeDrop(s, 3);
      SafeRunKept(s[3..], w, k - 1 + m);
      ContainsInSuffix(s, 3, w);
    } else {
      DecodedLiteral(s);
      assert Decoded(s)[1..] == Decoded(s[1..])[0..];
      OccursAfterDrop(Decoded(s), Decoded(s[1..]), 0, w, k);
      KeepsSafeDrop(s, 1);
      SafeRunKept(s[1..], w, k - 1);
      ContainsInSuffix(s, 1, w);
    }
  }

  lemma OccursAfterDrop(t: string, rest: string, m: nat, w: string, k: nat)
    requires 1 <= k && OccursAt(t, w, k) && m <= |rest| && t != "" && t[1..] == rest[m..]
    ensures OccursAt(rest, w, k - 1 + m)
  {
    SliceOfSlice(t, 1, |t|, k - 1, k - 1 + |w|);
    SliceOfSlice(rest, m, |rest|, k - 1, k - 1 + |w|);
    assert t[1..] == t[1..|t|] && rest[m..] == rest[m..|rest|];
  }

  // ----- every spelled-out reference contains the needle -----

  /** The last segment that is neither empty nor `.`. */
  function LastMeant(segs: seq<string>): Option<string> {
    if segs == [] then None
    else
      var last := segs[|segs| - 1];
      if IsSkipped(last) then LastMeant(segs[..|segs| - 1]) else Some(last)
  }

  /** The target ends in a file name of its own, not in `.` or `..`. */
  predicate EndsInName(target: string) {
    LastMeant(Split(target, '/')).Some? && LastMeant(Split(target, '/')).value != ".."
  }

  /** The destination spells its target's name: no escape of a URL-safe character, and a name at the end. */
  predicate SpellsName(dest: string) {
    KeepsSafeCharacters(PathPart(dest)) && EndsInName(Decoded(PathPart(dest)))
  }

  lemma {:induction false} WalkedEndsInName(segs: seq<string>, stack: seq<string>)
    requires LastMeant(segs).Some? && LastMeant(segs).value != ".." && Walked(segs, stack).Some?
    ensures var st := Walked(segs, stack).value; st != [] && st[|st| - 1] == LastMeant(segs).value
  {
    var last := segs[|segs| - 1];
    assert segs == segs[..|segs| - 1] + [last];
    WalkedConcat(segs[..|segs| - 1], [last], stack);
    var mid := Walked(segs[..|segs| - 1], stack).value;
    if IsSkipped(last) {
      WalkedEndsInName(segs[..|segs| - 1], stack);
      assert Walked([last], mid) == Walked([], mid);
    } else {
      assert Walked([last], mid) == Walked([], mid + [last]);
    }
  }

  lemma {:induction false} LastMeantConcat(a: seq<string>, b: seq<string>)
    requires LastMeant(b).Some?
    ensures LastMeant(a + b) == LastMeant(b)
  {
    var last := b[|b| - 1];
    assert (a + b)[|a + b| - 1] == last;
    assert (a + b)[..|a + b| - 1] == a + b[..|b| - 1];
    if IsSkipped(last) {
      LastMeantConcat(a, b[..|b| - 1]);
    }
  }

  lemma LastMeantIsPiece(segs: seq<string>)
    ensures LastMeant(segs).Some? ==> LastMeant(segs).value in segs
  {
  }

  lemma CombinedEndsInName(target: string, dir: string)
    requires EndsInName(target)
    ensures LastMeant(Split(Combined(target, dir), '/')) == LastMeant(Split(target, '/'))
  {
    var segs := Split(target, '/');
    if StartsWith(target, "/") {
      var rest := target[1..];
      assert target == "" + ['/'] + rest;
      SplitFirst("", '/', rest);
      RootedLastMeant(segs, Split(rest, '/'));
    } else if dir != "" {
      SplitAt(dir, '/', target);
      assert dir + "/" + target == dir + ['/'] + target;
      LastMeantConcat(Split(dir, '/'), segs);
    }
  }

  lemma {:induction false} RootedLastMeant(segs: seq<string>, rest: seq<string>)
    requires segs == [""] + rest
    ensures LastMeant(segs) == LastMeant(rest)
  {
    if rest != [] {
      assert segs[|segs| - 1] == rest[|rest| - 1];
      assert segs[..|segs| - 1] == [""] + rest[..|rest| - 1];
      if IsSkipped(rest[|rest| - 1]) {
        RootedLastMeant(segs[..|segs| - 1], rest[..|rest| - 1]);
      }
    }
  }

  lemma {:induction false} PieceOccurs(s: string, c: char, piece: string)
    requires piece in Split(s, c)
    ensures Contains(s, piece)
    decreases |s|
  {
    if c !in s {
      ContainsPrefix(s, s);
    } else {
      var i := IndexOf(s, c);
      if piece == s[..i] {
        ContainsPrefix(s, piece);
      } else {
        PieceOccurs(s[i + 1..], c, piece);
        ContainsInSuffix(s, i + 1, piece);
      }
    }
  }

  lemma FileNameOfStack(stack: seq<string>)
    requires stack != [] && forall seg <- stack :: IsName(seg)
    ensures var last := stack[|stack| - 1];
      FileName(WithExtension(stack)) == (if '.' in last then last else last + ".md")
  {
    hide Join, Split;
    var last := stack[|stack| - 1];
    var suffix := if '.' in last then "" else ".md";
    JoinLast(stack, "/", suffix);
    var full := stack[..|stack| - 1] + [last + suffix];
    assert IsName(last);
    assert forall seg <- full :: seg == last + suffix || seg in stack;
    SplitJoin(full, '/');
    assert last + "" == last;
  }

  lemma LastDotBeforeMd(name: string)
    requires '.' !in name
    ensures LastDot(name + ".md") == Some(|name|)
  {
    var full := name + ".md";
    LastDotIsLast(full);
    assert full[|name|] == '.' && full[|name| + 1] == 'm' && full[|name| + 2] == 'd';
    assert forall j :: 0 <= j < |name| ==> full[j] == name[j] && name[j] != '.';
  }

  /** Dropping the extension of a normalised name leaves nothing the author did not write. */
  lemma StemOfName(last: string)
    requires last != ""
    ensures Stem(if '.' in last then last else last + ".md") <= last
  {
    if '.' in last {
      StemIsPrefix(last);
    } else {
      LastDotBeforeMd(last);
    }
  }

  /** A destination that spells its target's name contains the target's needle: a cached document
      in which the needle does not occur has no such destination. */
  lemma SpelledReferenceContainsNeedle(dest: string, dir: string, rel: string)
    requires SpellsName(dest) && ResolvedLink(dest, dir) == Some(rel) && ReferenceNeedle(rel).Some?
    ensures Contains(dest, ReferenceNeedle(rel).value)
  {
    var part := PathPart(dest);
    var target, w := Decoded(part), ReferenceNeedle(rel).value;
    NeedleOccursInTarget(target, dir, rel);
    NeedleInName(FileName(rel), rel);
    var k: nat :| OccursAt(target, w, k);
    SafeRunKept(part, w, k);
    assert part <= dest;
    ContainsPrefix(dest, part);
    ContainsTransitive(dest, part, w);
  }

  lemma NeedleOccursInTarget(target: string, dir: string, rel: string)
    requires EndsInName(target) && Normalized(target, dir) == Some(rel) && ReferenceNeedle(rel).Some?
    ensures Contains(target, ReferenceNeedle(rel).value)
  {
    hide Contains, OccursAt, ReferenceNeedle, Stem, FileName, WithExtension, Split, Combined, LastMeant;
    var segs := Split(Combined(target, dir), '/');
    SplitPieces(Combined(target, dir), '/');
    WalkedIsNames(segs, []);
    var stack := Walked(segs, []).value;
    CombinedEndsInName(target, dir);
    WalkedEndsInName(segs, []);
    var last := stack[|stack| - 1];
    assert IsName(last);
    LastMeantIsPiece(Split(target, '/'));
    PieceOccurs(target, '/', last);
    FileNameOfStack(stack);
    StemOfName(last);
    NeedleInName(FileName(rel), rel);
    var stem := Stem(FileName(rel));
    ContainsPrefix(last, stem);
    ContainsTransitive(target, last, stem);
    ContainsTransitive(target, stem, ReferenceNeedle(rel).value);
  }

  lemma {:induction false} DecodedNoPercent(s: string)
    requires '%' !in s
    ensures DecodeBytes(Bytes(s)) == Bytes(s) && Decoded(s) == s
  {
    if s != "" {
      DecodeChars(s);
      DecodedNoPercent(s[1..]);
    }
    LossyBytes(s);
  }

  lemma NormalizedSingle(name: string)
    requires IsName(name) && '.' in name
    ensures Normalized(name, "") == Some(name)
  {
    assert Split(name, '/') == [name];
    assert name[0] != '/';
    WalkedNames([name], []);
    assert [] + [name] == [name];
    assert WithExtension([name]) == name + "" == name;
  }

  /** A plain file name. */
  predicate IsSimple(name: string) {
    name != "" && (forall c <- name :: IsUrlSafe(c) && c != '.' && c != '/')
  }

  /** A plain name is its own needle. */
  lemma NeedleOfSimpleName(name: string)
    requires IsSimple(name)
    ensures FileName(name + ".md") == name + ".md"
    ensures LongestRun(SafeRuns(Stem(name + ".md"))) == name
  {
    var full := name + ".md";
    assert Split(full, '/') == [full];
    LastDotBeforeMd(name);
    assert Stem(full) == name;
    SingleRun(name);
    assert LongestRun([name][1..]) == "";
  }

  lemma {:induction false} SingleRun(s: string)
    requires IsSafeRun(s)
    ensures SafeRuns(s) == [s]
  {
    if s != "" {
      assert IsUrlSafe(s[0]);
      SingleRun(s[1..]);
      assert [s[0]] + s[1..] == s && SafeRuns(s[1..])[1..] == [];
    }
  }

  /** An escaped letter defeats the name test: for any plain name `c + m`, the destination that
      writes `c` as an escape resolves to `c + m + ".md"` and nowhere spells the needle. */
  lemma EscapedLetterMissed(c: char, m: string)
    requires 'g' <= c <= 'z' && c != 'm' && IsSimple([c] + m)
    ensures var dest := Escape(c as int) + m + ".md";
      ResolvedLink(dest, "") == Some([c] + m + ".md")
      && ReferenceNeedle([c] + m + ".md") == Some([c] + m)
      && !Contains(dest, [c] + m) && !SpellsName(dest)
  {
    hide Decoded, Normalized, Contains, SafeRuns, LongestRun, Stem, FileName, KeepsSafeCharacters;
    var rest := m + ".md";
    var dest := Escape(c as int) + rest;
    assert Escape(c as int) + m + ".md" == dest;
    assert [c] + m + ".md" == [c] + rest;
    EscapedLetterTail(c, m);
    EscapedLetterDecodes(c, rest);
    NormalizedSingle([c] + rest);
    NeedleOfSimpleName([c] + m);
    EscapedLetterAbsent(c, m);
  }

  lemma EscapedLetterTail(c: char, m: string)
    requires 'g' <= c <= 'z' && IsSimple([c] + m)
    ensures '%' !in m + ".md" && '#' !in Escape(c as int) + (m + ".md")
    ensures IsName([c] + (m + ".md")) && '.' in [c] + (m + ".md")
  {
    assert forall x <- m :: x in [c] + m;
    var full := [c] + (m + ".md");
    assert full[|m| + 1] == '.';
  }

  lemma EscapedLetterDecodes(c: char, rest: string)
    requires 'g' <= c <= 'z' && '%' !in rest
    ensures Decoded(Escape(c as int) + rest) == [c] + rest && !KeepsSafeCharacters(Escape(c as int) + rest)
  {
    var e := Escape(c as int);
    EscapeBytes(c as int);
    UpperHexValue(c as int / 16);
    UpperHexValue(c as int % 16);
    assert OpensCharEscape(e + rest);
    BytesConcat(e, rest);
    EscapeDecodes(c as int, Bytes(rest));
    DecodedNoPercent(rest);
    BytesAscii([c] + rest);
    assert ([c] + rest)[1..] == rest;
    LossyBytes([c] + rest);
  }

  lemma EscapedLetterAbsent(c: char, m: string)
    requires 'g' <= c <= 'z' && c != 'm' && IsSimple([c] + m)
    ensures !Contains(Escape(c as int) + m + ".md", [c] + m)
  {
    var dest := Escape(c as int) + m + ".md";
    var w := [c] + m;
    var dot := 3 + |m|;
    assert dest[..3] == Escape(c as int) && dest[dot..] == ".md";
    assert dest[0] == '%' && dest[1] <= 'F' && dest[2] <= 'F';
    assert dest[dot] == '.' && dest[dot + 1] == 'm' && dest[dot + 2] == 'd';
    assert '.' !in w;
    forall i: nat
      ensures !OccursAt(dest, w, i)
    {
      if i + |w| <= |dest| {
        if 3 <= i <= dot {
          assert dest[i..i + |w|][dot - i] == '.';
        } else {
          assert dest[i..i + |w|][0] == dest[i] != c;
        }
      }
    }
  }

  /** So does a destination that names only a directory: `.` inside any directory whose own name
      has no dot resolves to that directory's name with `.md`, which `.` does not spell. */
  lemma DotMissed(segs: seq<string>)
    requires segs != [] && (forall seg <- segs :: IsName(seg)) && '.' !in segs[|segs| - 1]
    ensures ResolvedLink(".", Join(segs, "/")) == Some(Join(segs, "/") + ".md")
    ensures ReferenceNeedle(Join(segs, "/") + ".md").Some? ==>
      !Contains(".", ReferenceNeedle(Join(segs, "/") + ".md").value)
    ensures !SpellsName(".")
  {
    hide Split, Join, Decoded, Normalized, ReferenceNeedle, Contains, IsName, SpellsName;
    DotDestination(segs);
    DotSpellsNothing();
    if ReferenceNeedle(Join(segs, "/") + ".md").Some? {
      DotHasNoNeedle(segs);
    }
  }

  lemma DotDestination(segs: seq<string>)
    requires segs != [] && (forall seg <- segs :: IsName(seg)) && '.' !in segs[|segs| - 1]
    ensures ResolvedLink(".", Join(segs, "/")) == Some(Join(segs, "/") + ".md")
  {
    hide Split, Join, Decoded, Normalized, IsName;
    DecodedNoPercent(".");
    DotResolves(segs);
  }

  lemma DotSpellsNothing()
    ensures !SpellsName(".")
  {
    DecodedNoPercent(".");
    assert Split(".", '/') == ["."] && ["."][..0] == [];
  }

  lemma DotHasNoNeedle(segs: seq<string>)
    requires segs != [] && (forall seg <- segs :: IsName(seg)) && '.' !in segs[|segs| - 1]
    requires ReferenceNeedle(Join(segs, "/") + ".md").Some?
    ensures !Contains(".", ReferenceNeedle(Join(segs, "/") + ".md").value)
  {
    hide Split, Join, Contains, LongestRun, SafeRuns, ReferenceNeedle, FileName, Stem, IsSafeRun;
    var rel, last := Join(segs, "/") + ".md", segs[|segs| - 1];
    var w := ReferenceNeedle(rel).value;
    FileNameOfStack(segs);
    assert last in segs && IsName(last);
    StemOfName(last);
    NeedleInName(FileName(rel), rel);
    ContainsPrefix(last, Stem(last + ".md"));
    ContainsTransitive(last, Stem(last + ".md"), w);
    NoDotNoOccurrence(last, w);
  }

  lemma NoDotNoOccurrence(last: string, w: string)
    requires '.' !in last && Contains(last, w) && w != ""
    ensures !Contains(".", w)
  {
    var i: nat :| OccursAt(last, w, i);
    assert w[0] == last[i];
    assert forall j: nat :: OccursAt(".", w, j) ==> w[0] == "."[j];
  }

  lemma DotResolves(segs: seq<string>)
    requires segs != [] && (forall seg <- segs :: IsName(seg)) && '.' !in segs[|segs| - 1]
    ensures Normalized(".", Join(segs, "/")) == Some(Join(segs, "/") + ".md")
  {
    hide Split, Join, IsName;
    var dir := Join(segs, "/");
    NamesHaveNoSlash(segs);
    SplitJoin(segs, '/');
    JoinNotEmpty(segs);
    SplitAt(dir, '/', ".");
    assert dir + ['/'] + "." == dir + "/" + "." == Combined(".", dir);
    SplitDot();
    WalkedNames(segs, []);
    WalkedConcat(segs, ["."], []);
    assert [] + segs == segs;
    assert Walked(["."], segs) == Walked(["."][1..], segs);
  }

  lemma SplitDot()
    ensures Split(".", '/') == ["."]
  {
  }

  lemma NamesHaveNoSlash(segs: seq<string>)
    requires forall seg <- segs :: IsName(seg)
    ensures forall seg <- segs :: '/' !in seg
  {
  }

  lemma JoinNotEmpty(segs: seq<string>)
    requires segs != [] && forall seg <- segs :: IsName(seg)
    ensures Join(segs, "/") != ""
  {
    assert IsName(segs[0]);
  }
}
