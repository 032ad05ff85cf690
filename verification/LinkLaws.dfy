/** What a document's links come to, by how their destinations are written (`extract_md_link_lines`,
    src/extraction.rs), and which name the test for changed files looks for (`reference_needle`, src/walkcache.rs). */
module LinkLaws {
  import opened Wrappers
  import opened Text
  import opened PercentCoding
  import opened Paths
  import opened Links

  // ----- the line of a link -----

  lemma DecodedNotEmpty(s: string)
    requires s != ""
    ensures Decoded(s) != ""
  {
    if OpensCharEscape(s) {
      var _ := DecodedEscape(s);
    } else {
      DecodedLiteral(s);
    }
  }

  /** The document a destination resolves to, when the repository has it. */
  predicate LeadsTo(dest: string, relpath: string, index: set<string>, path: string) {
    path in index && ResolvedLink(dest, DocDir(relpath)) == Some(path)
  }

  /** A link has no line exactly when its destination is empty or a fragment of the document itself. An `http` or
      `https` destination is an outside link, any other leads to a document of the repository or is noted as
      unresolved, both in the author's words. */
  lemma LinkSays(dest: string, relpath: string, index: set<string>)
    ensures var lines := LineOf(InlineLink(dest), relpath, index);
      if dest == "" || dest[0] == '#' then lines == []
      else if StartsWith(dest, "http://") || StartsWith(dest, "https://") then
        lines == ["md.externalLink | hasValue | " + dest]
      else
        |lines| == 1
        && (forall path :: LeadsTo(dest, relpath, index, path) ==> lines[0] == relpath + " | linksTo | " + path)
        && ((forall path :: !LeadsTo(dest, relpath, index, path)) ==>
              lines[0] == "md.unresolvedLink | hasValue | " + dest)
  {
    hide Decoded, Normalized;
    if dest != "" {
      var part := PathPart(dest);
      assert part == "" <==> dest[0] == '#';
      if part == "" {
        DecodedEmpty();
      } else {
        DecodedNotEmpty(part);
      }
      if ResolvedLink(dest, DocDir(relpath)).Some? && ResolvedLink(dest, DocDir(relpath)).value in index {
        assert LeadsTo(dest, relpath, index, ResolvedLink(dest, DocDir(relpath)).value);
      }
    }
  }

  /** A URL in angle brackets is an outside link. */
  lemma AutolinkSays(url: string, relpath: string, index: set<string>)
    requires url != ""
    ensures LineOf(Autolink(url), relpath, index) == ["md.externalLink | hasValue | " + url]
  {
  }

  /** The lines of a document are its links' lines, in document order. */
  lemma {:induction false} LinesJoin(a: seq<Node>, b: seq<Node>, relpath: string, index: set<string>)
    ensures LinkLines(a + b, relpath, index) == LinkLines(a, relpath, index) + LinkLines(b, relpath, index)
  {
    hide LineOf;
    if a == [] {
      assert a + b == b;
    } else {
      assert (a + b)[1..] == a[1..] + b;
      LinesJoin(a[1..], b, relpath, index);
    }
  }

  // ----- the name test -----

  /** The name without its extension: without the last dot and what follows it, when something stands before it. */
  lemma StemIs(dir: string, stem: string, ext: string)
    requires dir == "" || EndsWith(dir, "/")
    requires '/' !in stem && '/' !in ext && '.' !in ext
    ensures Stem(FileName(dir + (stem + "." + ext))) == if stem == "" then "." + ext else stem
  {
    hide Split;
    var name := stem + "." + ext;
    FileNameIs(dir, name);
    LastDotIsLast(name);
    var i := LastDot(name).value;
    assert name[|stem|] == '.' && name[|stem| + 1..] == ext;
    assert forall k :: |stem| < k < |name| ==> name[k] == ext[k - |stem| - 1];
    assert forall k :: i < k < |name| ==> name[k] == name[i + 1..][k - i - 1];
    assert name[..|stem|] == stem;
  }

  lemma StemWhole(dir: string, name: string)
    requires dir == "" || EndsWith(dir, "/")
    requires '/' !in name && '.' !in name
    ensures Stem(FileName(dir + name)) == name
  {
    FileNameIs(dir, name);
    LastDotIsLast(name);
  }

  lemma FileNameIs(dir: string, name: string)
    requires dir == "" || EndsWith(dir, "/")
    requires '/' !in name
    ensures FileName(dir + name) == name
  {
    hide Split;
    NothingToSplit(name, '/');
    if dir == "" {
      assert dir + name == name;
    } else {
      var before := dir[..|dir| - 1];
      assert dir[|dir| - 1..][0] == '/';
      assert dir + name == before + ['/'] + name;
      SplitAt(before, '/', name);
      assert Split(name, '/') == [name];
    }
  }

  /** The first run, and the runs behind the character that ends it. */
  lemma {:induction false} FirstRun(s: string)
    ensures SafeRuns(s) != []
    ensures var first := SafeRuns(s)[0];
      first <= s && IsSafeRun(first) && (|first| == |s| ==> SafeRuns(s) == [first])
      && (|first| < |s| ==> !IsUrlSafe(s[|first|]) && SafeRuns(s)[1..] == SafeRuns(s[|first| + 1..]))
  {
    if s != "" {
      FirstRun(s[1..]);
      if IsUrlSafe(s[0]) {
        var first := SafeRuns(s)[0];
        assert first == [s[0]] + SafeRuns(s[1..])[0];
        if |first| < |s| {
          assert s[|first|] == s[1..][|first| - 1] && s[|first| + 1..] == s[1..][|first|..];
        }
      }
    }
  }

  /** `w` stands at `k`, and every run of URL-safe characters is shorter, or as long and not further back. */
  ghost predicate IsLastLongest(s: string, w: string, k: nat) {
    OccursAt(s, w, k) && IsSafeRun(w)
    && forall v, i: nat :: OccursAt(s, v, i) && IsSafeRun(v) && v != "" ==> |v| < |w| || (|v| == |w| && i <= k)
  }

  lemma {:induction false} LongestIs(s: string) returns (k: nat)
    ensures IsLastLongest(s, LongestRun(SafeRuns(s)), k)
    decreases |s|
  {
    hide SafeRuns;
    FirstRun(s);
    var runs := SafeRuns(s);
    var first := runs[0];
    if |first| == |s| {
      k := 0;
      WholeRun(s);
      assert runs[1..] == [];
    } else {
      var rest := s[|first| + 1..];
      var k0 := LongestIs(rest);
      var w := LongestRun(SafeRuns(rest));
      k := if |first| > |w| then 0 else |first| + 1 + k0;
      StepLongest(s, first, w, k0);
    }
  }

  lemma WholeRun(s: string)
    requires IsSafeRun(s)
    ensures IsLastLongest(s, s, 0)
    ensures LongestRun([s]) == s
  {
    assert [s][1..] == [];
  }

  lemma StepLongest(s: string, first: string, w: string, k0: nat)
    requires |first| < |s| && first <= s && IsSafeRun(first) && !IsUrlSafe(s[|first|])
    requires IsLastLongest(s[|first| + 1..], w, k0)
    ensures if |first| > |w| then IsLastLongest(s, first, 0) else IsLastLongest(s, w, |first| + 1 + k0)
  {
    hide IsSafeRun;
    var n := |first| + 1;
    var rest := s[n..];
    assert OccursAt(s, w, n + k0) by { SliceOfSlice(s, n, |s|, k0, k0 + |w|); assert s[n..] == s[n..|s|]; }
    forall v, i: nat | OccursAt(s, v, i) && IsSafeRun(v) && v != ""
      ensures i + |v| <= |first| || (i >= n && OccursAt(rest, v, i - n))
    {
      OneSide(s, first, v, i);
    }
    forall v, i: nat | OccursAt(rest, v, i) && IsSafeRun(v) && v != ""
      ensures |v| < |w| || (|v| == |w| && i <= k0)
    {
    }
  }

  lemma OneSide(s: string, first: string, v: string, i: nat)
    requires |first| < |s| && !IsUrlSafe(s[|first|]) && OccursAt(s, v, i) && IsSafeRun(v) && v != ""
    ensures i + |v| <= |first| || (i >= |first| + 1 && OccursAt(s[|first| + 1..], v, i - |first| - 1))
  {
    assert forall j :: 0 <= j < |v| ==> v[j] == s[i + j];
    assert forall j :: i <= j < i + |v| ==> IsUrlSafe(s[j]) by {
      assert forall j :: i <= j < i + |v| ==> s[j] == v[j - i];
    }
    if i > |first| {
      SliceOfSlice(s, |first| + 1, |s|, i - |first| - 1, i - |first| - 1 + |v|);
      assert s[|first| + 1..] == s[|first| + 1..|s|];
    }
  }

  /** The needle is the longest run of URL-safe characters in the name without its extension, the last of them when
      there are several; there is none exactly when the name has no such character. */
  lemma NeedleIsLongest(rel: string) returns (k: nat)
    ensures ReferenceNeedle(rel).None? <==> forall c <- Stem(FileName(rel)) :: !IsUrlSafe(c)
    ensures ReferenceNeedle(rel).Some? ==> IsLastLongest(Stem(FileName(rel)), ReferenceNeedle(rel).value, k)
  {
    hide SafeRuns, LongestRun;
    var s := Stem(FileName(rel));
    k := LongestIs(s);
    var w := LongestRun(SafeRuns(s));
    if w == "" {
      forall i | 0 <= i < |s| ensures !IsUrlSafe(s[i]) {
        assert s[i..i + 1] == [s[i]];
        assert OccursAt(s, [s[i]], i);
        assert IsUrlSafe(s[i]) ==> IsSafeRun([s[i]]);
      }
    } else {
      assert w[0] == s[k..k + |w|][0] == s[k] && IsUrlSafe(w[0]);
    }
  }
}
