/** What resolving a link target means, said without the segment stack: `.` and empty segments count for nothing,
    `..` takes back the name before it, and a target that climbs out of the repository names no file. */
module PathLaws {
  import opened Wrappers
  import opened Text
  import opened Paths

  // ----- segments -----

  /** `..` takes back exactly the name before it. */
  lemma UpTakesBack(before: seq<string>, name: string, after: seq<string>)
    requires IsName(name)
    ensures Walked(before + [name, ".."] + after, []) == Walked(before + after, [])
  {
    WalkedConcat(before + [name, ".."], after, []);
    WalkedConcat(before, [name, ".."], []);
    WalkedConcat(before, after, []);
    if Walked(before, []).Some? {
      BackAgain(name, Walked(before, []).value);
    }
  }

  lemma BackAgain(name: string, stack: seq<string>)
    requires IsName(name)
    ensures Walked([name, ".."], stack) == Some(stack)
  {
    assert [name, ".."][1..] == [".."] && [".."][1..] == [];
    assert (stack + [name])[..|stack|] == stack;
    assert Walked([name, ".."], stack) == Walked([".."], stack + [name]) == Walked([], stack);
  }

  /** An empty segment and `.` count for nothing. */
  lemma SkippedCountsNothing(before: seq<string>, seg: string, after: seq<string>)
    requires IsSkipped(seg)
    ensures Walked(before + [seg] + after, []) == Walked(before + after, [])
  {
    WalkedConcat(before + [seg], after, []);
    WalkedConcat(before, [seg], []);
    WalkedConcat(before, after, []);
    if Walked(before, []).Some? {
      assert [seg][1..] == [];
      assert Walked([seg], Walked(before, []).value) == Walked([], Walked(before, []).value);
    }
  }

  /** How deep in the repository the segments lead: one down a name, one up a `..`. */
  function Depth(segs: seq<string>): int {
    if segs == [] then 0
    else
      var last := segs[|segs| - 1];
      Depth(segs[..|segs| - 1]) + if IsSkipped(last) then 0 else if last == ".." then -1 else 1
  }

  predicate ClimbsAt(segs: seq<string>, k: nat) {
    k <= |segs| && Depth(segs[..k]) < 0
  }

  /** The walk climbs out exactly when some beginning of it has more `..` than names; else it ends as deep as it
      has more names than `..`. */
  lemma {:induction false} WalkedDepth(segs: seq<string>)
    ensures Walked(segs, []).None? <==> exists k :: ClimbsAt(segs, k)
    ensures Walked(segs, []).Some? ==> |Walked(segs, []).value| == Depth(segs)
  {
    if segs == [] {
      assert forall k: nat :: k <= |segs| ==> segs[..k] == [];
    } else {
      var init, last := segs[..|segs| - 1], segs[|segs| - 1];
      assert segs == init + [last] && segs[..|segs|] == segs;
      WalkedDepth(init);
      WalkedConcat(init, [last], []);
      if Walked(init, []).Some? {
        LastStep(last, Walked(init, []).value);
      }
      PrefixesClimb(init, last);
    }
  }

  lemma LastStep(last: string, stack: seq<string>)
    ensures Walked([last], stack) ==
      if IsSkipped(last) then Some(stack)
      else if last == ".." then if stack == [] then None else Some(stack[..|stack| - 1])
      else Some(stack + [last])
  {
    assert [last][1..] == [];
  }

  lemma PrefixesClimb(init: seq<string>, last: string)
    ensures var segs := init + [last];
      (exists k :: ClimbsAt(segs, k)) <==> (exists k :: ClimbsAt(init, k)) || Depth(segs) < 0
  {
    hide Depth;
    var segs := init + [last];
    assert forall k: nat :: k <= |init| ==> segs[..k] == init[..k];
    assert segs[..|segs|] == segs;
    if k: nat :| ClimbsAt(init, k) {
      assert ClimbsAt(segs, k);
    }
    if Depth(segs) < 0 {
      assert ClimbsAt(segs, |segs|);
    }
    if k: nat :| ClimbsAt(segs, k) {
      assert k <= |init| ==> ClimbsAt(init, k);
    }
  }

  // ----- targets -----

  function Segments(target: string, dir: string): seq<string> {
    Split(Combined(target, dir), '/')
  }

  lemma SameWalk(target: string, other: string, dir: string, dir2: string)
    requires Walked(Segments(target, dir), []) == Walked(Segments(other, dir2), [])
    ensures Normalized(target, dir) == Normalized(other, dir2)
  {
  }

  /** A target names no file exactly when its segments, from the document's directory, climb out of the repository
      at some point or end at its root. */
  lemma NamesNothingIff(target: string, dir: string)
    ensures Normalized(target, dir).None? <==>
      (exists k :: ClimbsAt(Segments(target, dir), k)) || Depth(Segments(target, dir)) == 0
  {
    hide Depth, ClimbsAt, Walked, Split;
    WalkedDepth(Segments(target, dir));
  }

  /** The segments of a directory. */
  function DirSegments(dir: string): seq<string> {
    if dir == "" then [] else Split(dir, '/')
  }

  lemma RelativeSegments(target: string, dir: string)
    requires !StartsWith(target, "/")
    ensures Segments(target, dir) == DirSegments(dir) + Split(target, '/')
  {
    hide Split;
    if dir != "" {
      SplitAt(dir, '/', target);
      assert dir + "/" + target == dir + ['/'] + target;
    }
  }

  /** What stands before a slash of a target, with the directory it is read from. */
  function Front(x: string, dir: string): seq<string> {
    if x == "" then [] else Segments(x, dir)
  }

  lemma SegmentsAtSlash(x: string, rest: string, dir: string)
    ensures Segments(x + "/" + rest, dir) == Front(x, dir) + Split(rest, '/')
  {
    hide Split;
    var target := x + "/" + rest;
    if x == "" {
      assert target == "/" + rest && target[1..] == rest && StartsWith(target, "/");
    } else {
      assert StartsWith(target, "/") <==> StartsWith(x, "/") by { assert target[0] == x[0]; }
      assert StartsWith(x, "/") ==> target[1..] == x[1..] + "/" + rest;
      assert Combined(target, dir) == Combined(x, dir) + ['/'] + rest;
      SplitAt(Combined(x, dir), '/', rest);
    }
  }

  lemma SplitName(name: string, rest: string)
    requires '/' !in name
    ensures Split(name + "/" + rest, '/') == [name] + Split(rest, '/')
  {
    SplitFirst(name, '/', rest);
    assert name + "/" + rest == name + ['/'] + rest;
  }

  /** A name and the `..` after it may be put anywhere behind a slash, and taken out. */
  lemma UpDown(x: string, name: string, y: string, dir: string)
    requires IsName(name)
    ensures Normalized(x + "/" + (name + "/" + ("../" + y)), dir) == Normalized(x + "/" + y, dir)
  {
    hide Split, Walked, Normalized, Segments, Front;
    SegmentsAtSlash(x, name + "/" + ("../" + y), dir);
    SegmentsAtSlash(x, y, dir);
    SplitName(name, "../" + y);
    SplitName("..", y);
    assert ".." + "/" + y == "../" + y;
    var front, rest := Front(x, dir), Split(y, '/');
    assert front + ([name] + ([".."] + rest)) == front + [name, ".."] + rest;
    UpTakesBack(front, name, rest);
    SameWalk(x + "/" + (name + "/" + ("../" + y)), x + "/" + y, dir, dir);
  }

  /** At the front of a relative target too. */
  lemma UpDownFirst(name: string, y: string, dir: string)
    requires IsName(name) && !StartsWith(y, "/")
    ensures Normalized(name + "/" + ("../" + y), dir) == Normalized(y, dir)
  {
    hide Split, Walked, Normalized, Segments, DirSegments;
    var target := name + "/" + ("../" + y);
    assert !StartsWith(target, "/") by { NameFirst(name, "../" + y); }
    RelativeSegments(target, dir);
    RelativeSegments(y, dir);
    SplitName(name, "../" + y);
    SplitName("..", y);
    assert ".." + "/" + y == "../" + y;
    var front, rest := DirSegments(dir), Split(y, '/');
    assert front + ([name] + ([".."] + rest)) == front + [name, ".."] + rest;
    UpTakesBack(front, name, rest);
    SameWalk(target, y, dir, dir);
  }

  lemma NameFirst(name: string, rest: string)
    requires IsName(name)
    ensures !StartsWith(name + "/" + rest, "/")
  {
    assert (name + "/" + rest)[0] == name[0] && name[0] in name;
  }

  /** A second slash and a `.` between slashes change nothing. */
  lemma SlashesAndDots(x: string, seg: string, y: string, dir: string)
    requires IsSkipped(seg)
    ensures Normalized(x + "/" + (seg + "/" + y), dir) == Normalized(x + "/" + y, dir)
  {
    hide Split, Walked, Normalized, Segments, Front;
    SegmentsAtSlash(x, seg + "/" + y, dir);
    SegmentsAtSlash(x, y, dir);
    SplitName(seg, y);
    var front, rest := Front(x, dir), Split(y, '/');
    assert front + ([seg] + rest) == front + [seg] + rest;
    SkippedCountsNothing(front, seg, rest);
    SameWalk(x + "/" + (seg + "/" + y), x + "/" + y, dir, dir);
  }

  function Below(dir: string, name: string): string {
    if dir == "" then name else dir + "/" + name
  }

  /** From a directory below another, `../x` is what `x` is from the other. */
  lemma UpFromBelow(x: string, dir: string, name: string)
    requires IsName(name) && !StartsWith(x, "/")
    ensures Normalized("../" + x, Below(dir, name)) == Normalized(x, dir)
  {
    hide Split, Walked, Normalized, Segments;
    assert !StartsWith("../" + x, "/") by { assert ("../" + x)[0] == '.'; }
    RelativeSegments("../" + x, Below(dir, name));
    RelativeSegments(x, dir);
    SplitName("..", x);
    assert ".." + "/" + x == "../" + x;
    BelowSegments(dir, name);
    var front, rest := DirSegments(dir), Split(x, '/');
    assert (front + [name]) + ([".."] + rest) == front + [name, ".."] + rest;
    UpTakesBack(front, name, rest);
    SameWalk("../" + x, x, Below(dir, name), dir);
  }

  lemma BelowSegments(dir: string, name: string)
    requires IsName(name)
    ensures DirSegments(Below(dir, name)) == DirSegments(dir) + [name]
  {
    hide Split;
    NothingToSplit(name, '/');
    if dir != "" {
      SplitAt(dir, '/', name);
      assert dir + "/" + name == dir + ['/'] + name;
    }
  }

  function Extension(name: string): string {
    if '.' in name then "" else ".md"
  }

  /** From a directory of names a target of names is the file of the two, with `.md` unless it has an extension. */
  lemma NamesResolve(dirs: seq<string>, names: seq<string>)
    requires names != [] && (forall n <- dirs :: IsName(n)) && forall n <- names :: IsName(n)
    ensures Normalized(Join(names, "/"), Join(dirs, "/"))
         == Some(Join(dirs + names, "/") + Extension(names[|names| - 1]))
  {
    hide Split, Walked, Combined;
    assert names[0] in names;
    JoinStarts(names);
    RelativeSegments(Join(names, "/"), Join(dirs, "/"));
    SplitJoin(names, '/');
    if dirs != [] {
      assert dirs[0] in dirs;
      JoinStarts(dirs);
      SplitJoin(dirs, '/');
    }
    assert Segments(Join(names, "/"), Join(dirs, "/")) == dirs + names;
    WalkedNames(dirs + names, []);
    assert [] + (dirs + names) == dirs + names;
    assert (dirs + names)[|dirs + names| - 1] == names[|names| - 1];
  }

  lemma JoinStarts(names: seq<string>)
    requires names != [] && IsName(names[0])
    ensures Join(names, "/") != "" && !StartsWith(Join(names, "/"), "/")
  {
    assert names[0][0] in names[0];
    assert Join(names, "/")[0] == names[0][0];
  }

  // ----- a document's directory, a destination's parts -----

  /** The directory of a document is its path without its name. */
  lemma DirOfDocument(dir: string, name: string)
    requires '/' !in name
    ensures DocDir(Below(dir, name)) == dir
  {
    hide Split;
    NothingToSplit(name, '/');
    if dir == "" {
      assert [name][..0] == [];
    } else {
      SplitAt(dir, '/', name);
      assert dir + "/" + name == dir + ['/'] + name;
      assert (Split(dir, '/') + [name])[..|Split(dir, '/')|] == Split(dir, '/');
      JoinSplit(dir, '/');
    }
  }

  /** A destination is its path up to the first `#` and its fragment from there. */
  lemma DestinationParts(path: string, fragment: string)
    requires '#' !in path
    ensures PathPart(path + "#" + fragment) == path && Fragment(path + "#" + fragment) == "#" + fragment
    ensures PathPart(path) == path && Fragment(path) == ""
  {
    var dest := path + "#" + fragment;
    assert dest[..|path|] == path && dest[|path|..] == "#" + fragment;
    IndexOfUnique(dest, '#', |path|);
  }
}
