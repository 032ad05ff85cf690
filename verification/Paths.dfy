/** Link targets as repository paths (src/extraction.rs): fragment strip, percent decoding, and
    `normalize_wikilink_path`. The extractor and the link healer share this resolution. */
module Paths {
  import opened Wrappers
  import opened Text
  import opened PercentCoding

  /** The text whose segments are walked: from the root for a leading `/`, else from the directory. */
  function Combined(target: string, dir: string): string {
    if StartsWith(target, "/") then target[1..]
    else if dir == "" then target
    else dir + "/" + target
  }

  predicate IsSkipped(seg: string) {
    seg == "" || seg == "."
  }

  /** The segment stack after `segs`, or None when `..` climbs out of the repository. */
  function Walked(segs: seq<string>, stack: seq<string>): Option<seq<string>> {
    if segs == [] then Some(stack)
    else if IsSkipped(segs[0]) then Walked(segs[1..], stack)
    else if segs[0] == ".." then
      if stack == [] then None else Walked(segs[1..], stack[..|stack| - 1])
    else Walked(segs[1..], stack + [segs[0]])
  }

  function WithExtension(stack: seq<string>): string
    requires stack != []
  {
    Join(stack, "/") + (if '.' in stack[|stack| - 1] then "" else ".md")
  }

  function Normalized(target: string, dir: string): Option<string> {
    match Walked(Split(Combined(target, dir), '/'), [])
    case None => None
    case Some(stack) => if stack == [] then None else Some(WithExtension(stack))
  }

  /** `normalize_wikilink_path`: a walk over the segments with a stack. */
  method NormalizeWikilinkPath(target: string, dir: string) returns (r: Option<string>)
    ensures r == Normalized(target, dir)
  {
    var segs := Split(Combined(target, dir), '/');
    var stack: seq<string> := [];
    for i := 0 to |segs|
      invariant Walked(segs[i..], stack) == Walked(segs, [])
    {
      assert segs[i..][1..] == segs[i + 1..];
      if IsSkipped(segs[i]) {
        continue;
      }
      if segs[i] == ".." {
        if stack == [] {
          return None;
        }
        stack := stack[..|stack| - 1];
      } else {
        stack := stack + [segs[i]];
      }
    }
    if stack == [] {
      return None;
    }
    return Some(WithExtension(stack));
  }

  lemma {:induction false} WalkedConcat(a: seq<string>, b: seq<string>, stack: seq<string>)
    ensures Walked(a + b, stack) ==
      match Walked(a, stack) case None => None case Some(mid) => Walked(b, mid)
  {
    if a == [] {
      assert a + b == b;
    } else {
      assert (a + b)[1..] == a[1..] + b;
      if IsSkipped(a[0]) {
        WalkedConcat(a[1..], b, stack);
      } else if a[0] != ".." {
        WalkedConcat(a[1..], b, stack + [a[0]]);
      } else if stack != [] {
        WalkedConcat(a[1..], b, stack[..|stack| - 1]);
      }
    }
  }

  // ----- normal paths -----

  predicate IsName(seg: string) {
    !IsSkipped(seg) && seg != ".." && '/' !in seg
  }

  /** What the normaliser answers: proper segments, the last with an extension. */
  predicate IsNormalPath(path: string) {
    var segs := Split(path, '/');
    (forall seg <- segs :: IsName(seg)) && '.' in segs[|segs| - 1]
  }

  lemma {:induction false} WalkedNames(segs: seq<string>, stack: seq<string>)
    requires forall seg <- segs :: IsName(seg)
    ensures Walked(segs, stack) == Some(stack + segs)
  {
    if segs == [] {
      assert stack + segs == stack;
    } else {
      assert IsName(segs[0]);
      WalkedNames(segs[1..], stack + [segs[0]]);
      assert stack + [segs[0]] + segs[1..] == stack + segs;
    }
  }

  lemma {:induction false} WalkedIsNames(segs: seq<string>, stack: seq<string>)
    requires forall seg <- segs :: '/' !in seg
    requires forall seg <- stack :: IsName(seg)
    ensures Walked(segs, stack).Some? ==> forall seg <- Walked(segs, stack).value :: IsName(seg)
  {
    if segs != [] {
      if IsSkipped(segs[0]) {
        WalkedIsNames(segs[1..], stack);
      } else if segs[0] != ".." {
        WalkedIsNames(segs[1..], stack + [segs[0]]);
      } else if stack != [] {
        WalkedIsNames(segs[1..], stack[..|stack| - 1]);
      }
    }
  }

  lemma {:induction false} JoinLast(parts: seq<string>, sep: string, suffix: string)
    requires parts != []
    ensures Join(parts, sep) + suffix == Join(parts[..|parts| - 1] + [parts[|parts| - 1] + suffix], sep)
  {
    var last := parts[|parts| - 1] + suffix;
    if |parts| > 1 {
      JoinLast(parts[1..], sep, suffix);
      assert parts[1..][..|parts| - 2] == parts[1..|parts| - 1];
      assert (parts[..|parts| - 1] + [last])[1..] == parts[1..|parts| - 1] + [last];
    }
  }

  lemma WithExtensionIsNormal(stack: seq<string>)
    requires stack != [] && forall seg <- stack :: IsName(seg)
    ensures IsNormalPath(WithExtension(stack))
  {
    hide Split, Join;
    var last := stack[|stack| - 1];
    var suffix := if '.' in last then "" else ".md";
    JoinLast(stack, "/", suffix);
    var full := stack[..|stack| - 1] + [last + suffix];
    assert IsName(last);
    assert IsName(last + suffix) by {
      assert last + "" == last;
    }
    assert '.' in last + suffix;
    assert forall seg <- full :: seg == last + suffix || seg in stack;
    assert forall seg <- full :: IsName(seg);
    SplitJoin(full, '/');
  }

  /** Whatever the normaliser answers is a normal path. */
  lemma NormalizedIsNormal(target: string, dir: string)
    ensures Normalized(target, dir).Some? ==> IsNormalPath(Normalized(target, dir).value)
  {
    hide IsNormalPath, WithExtension, IsName;
    var segs := Split(Combined(target, dir), '/');
    SplitPieces(Combined(target, dir), '/');
    WalkedIsNames(segs, []);
    if Normalized(target, dir).Some? {
      WithExtensionIsNormal(Walked(segs, []).value);
    }
  }

  /** A normal path written from the root resolves to itself, wherever the link stands. */
  lemma NormalizedRooted(path: string, dir: string)
    ensures Normalized("/" + path, dir) == Some(path) <==> IsNormalPath(path)
  {
    if IsNormalPath(path) {
      NormalizedNormal(path, dir);
    } else {
      NormalizedIsNormal("/" + path, dir);
    }
  }

  lemma NormalizedNormal(path: string, dir: string)
    requires IsNormalPath(path)
    ensures Normalized("/" + path, dir) == Some(path)
  {
    hide Split, Join, IsName;
    var segs := Split(path, '/');
    assert StartsWith("/" + path, "/") && ("/" + path)[1..] == path;
    assert Combined("/" + path, dir) == path;
    WalkedNames(segs, []);
    assert [] + segs == segs;
    JoinSplit(path, '/');
    assert path + "" == path;
  }

  // ----- link destinations -----

  /** The destination without its fragment. */
  function PathPart(dest: string): string {
    if '#' in dest then dest[..IndexOf(dest, '#')] else dest
  }

  function Fragment(dest: string): string {
    if '#' in dest then dest[IndexOf(dest, '#')..] else ""
  }

  predicate IsExternal(dest: string) {
    StartsWith(dest, "http://") || StartsWith(dest, "https://")
  }

  /** The repository path an internal destination names, seen from `dir`. */
  function ResolvedLink(dest: string, dir: string): Option<string> {
    var target := Decoded(PathPart(dest));
    if target == "" then None else Normalized(target, dir)
  }

  /** The directory of a document. */
  function DocDir(relpath: string): string {
    var segs := Split(relpath, '/');
    Join(segs[..|segs| - 1], "/")
  }
}
