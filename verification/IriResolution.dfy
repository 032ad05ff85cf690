/** Reference resolution as section 5.2 of RFC 3986 has it: how a reader of the spine finds the IRI that a
    relative reference stands for. */
module IriResolution {
  import opened Wrappers
  import opened Text

  // ----- the parts of a reference (section 3, appendix B) -----

  predicate IsSchemeChar(c: char) {
    'a' <= c <= 'z' || 'A' <= c <= 'Z' || '0' <= c <= '9' || c in {'+', '-', '.'}
  }

  /** The reference is absolute: it begins with a scheme (section 3.1). */
  predicate HasScheme(s: string) {
    ':' in s && IndexOf(s, ':') > 0 && !('0' <= s[0] <= '9') && s[0] !in {'+', '-', '.'}
    && forall c <- s[..IndexOf(s, ':')] :: IsSchemeChar(c)
  }

  /** A reference after its scheme. */
  datatype Parts = Parts(authority: Option<string>, path: string, query: Option<string>, fragment: Option<string>)

  function Before(s: string, c: char): string {
    if c in s then s[..IndexOf(s, c)] else s
  }

  function After(s: string, c: char): Option<string> {
    if c in s then Some(s[IndexOf(s, c) + 1..]) else None
  }

  /** The authority, if the text opens with one, and the path. */
  function SplitAuthority(rest: string): (Option<string>, string) {
    if StartsWith(rest, "//") then
      var authority := Before(rest[2..], '/');
      (Some(authority), if |authority| <= |rest| - 2 then rest[2..][|authority|..] else "")
    else (None, rest)
  }

  function Parse(s: string): Parts {
    var noFragment := Before(s, '#');
    var (authority, path) := SplitAuthority(Before(noFragment, '?'));
    Parts(authority, path, After(noFragment, '?'), After(s, '#'))
  }

  function Prefixed(mark: string, part: Option<string>): string {
    match part case Some(t) => mark + t case None => ""
  }

  /** Section 5.3, without the scheme. */
  function Written(r: Parts): string {
    Prefixed("//", r.authority) + r.path + Prefixed("?", r.query) + Prefixed("#", r.fragment)
  }

  // ----- dot segments (section 5.2.4) -----

  /** The input's first segment, with its leading slash if it has one. */
  function FirstSegment(input: string): string
    requires input != ""
  {
    [input[0]] + Before(input[1..], '/')
  }

  /** The output without its last segment and the slash before that. */
  function WithoutLast(output: string): string {
    if '/' in output then output[..LastIndexOf(output, '/')] else ""
  }

  function RemoveDots(input: string, output: string): string
    decreases |input|
  {
    if input == "" then output
    else if StartsWith(input, "../") then RemoveDots(input[3..], output)
    else if StartsWith(input, "./") then RemoveDots(input[2..], output)
    else if StartsWith(input, "/./") then RemoveDots(input[2..], output)
    else if input == "/." then RemoveDots("/", output)
    else if StartsWith(input, "/../") then RemoveDots(input[3..], WithoutLast(output))
    else if input == "/.." then RemoveDots("/", WithoutLast(output))
    else if input == "." || input == ".." then output
    else RemoveDots(input[|FirstSegment(input)|..], output + FirstSegment(input))
  }

  // ----- resolution (sections 5.2.2 and 5.2.3) -----

  function Merge(base: Parts, path: string): string {
    if base.authority.Some? && base.path == "" then "/" + path
    else if '/' in base.path then base.path[..LastIndexOf(base.path, '/') + 1] + path
    else path
  }

  /** The parts of the target of a reference that has no scheme. */
  function Target(base: Parts, r: Parts): Parts {
    if r.authority.Some? then r.(path := RemoveDots(r.path, ""))
    else if r.path == "" then base.(query := if r.query.Some? then r.query else base.query, fragment := r.fragment)
    else if r.path[0] == '/' then r.(authority := base.authority, path := RemoveDots(r.path, ""))
    else r.(authority := base.authority, path := RemoveDots(Merge(base, r.path), ""))
  }

  /** The IRI a reference stands for, read against a base. */
  function Resolved(base: string, s: string): string
    requires HasScheme(base)
  {
    if HasScheme(s) then s
    else
      var k := IndexOf(base, ':') + 1;
      base[..k] + Written(Target(Parse(base[k..]), Parse(s)))
  }

  // ----- laws -----

  lemma CutRejoins(s: string, c: char)
    ensures s == Before(s, c) + Prefixed([c], After(s, c))
    ensures c !in Before(s, c)
  {
    if c in s {
      var i := IndexOf(s, c);
      assert s == s[..i] + [s[i]] + s[i + 1..];
    }
  }

  lemma AuthorityRejoins(rest: string)
    ensures var (authority, path) := SplitAuthority(rest); Prefixed("//", authority) + path == rest
  {
    if StartsWith(rest, "//") {
      CutRejoins(rest[2..], '/');
      assert rest == "//" + rest[2..];
      var a := Before(rest[2..], '/');
      assert a <= rest[2..] && rest[2..] == a + rest[2..][|a|..];
      Regroup("//", a, rest[2..][|a|..]);
    } else {
      assert "" + rest == rest;
    }
  }

  /** The parts make up the reference. */
  lemma PartsMakeUp(s: string)
    ensures Written(Parse(s)) == s
  {
    hide Before, After, SplitAuthority;
    CutRejoins(s, '#');
    CutRejoins(Before(s, '#'), '?');
    AuthorityRejoins(Before(Before(s, '#'), '?'));
  }

  predicate IsDotSegment(seg: string) {
    seg == "." || seg == ".."
  }

  /** No segment of the path is `.` or `..`. */
  predicate NoDots(path: string) {
    forall seg <- Split(path, '/') :: !IsDotSegment(seg)
  }

  lemma WithoutLastShorter(output: string)
    ensures |WithoutLast(output)| <= |output|
  {
  }

  lemma FirstSegmentShorter(input: string)
    requires input != ""
    ensures 1 <= |FirstSegment(input)| <= |input|
  {
  }

  lemma {:induction false} RemoveDotsShorter(input: string, output: string)
    ensures |RemoveDots(input, output)| <= |input| + |output|
    decreases |input|
  {
    hide WithoutLast, FirstSegment;
    WithoutLastShorter(output);
    if input == "" {
    } else if StartsWith(input, "../") {
      RemoveDotsShorter(input[3..], output);
    } else if StartsWith(input, "./") {
      RemoveDotsShorter(input[2..], output);
    } else if StartsWith(input, "/./") {
      RemoveDotsShorter(input[2..], output);
    } else if input == "/." {
      RemoveDotsShorter("/", output);
    } else if StartsWith(input, "/../") {
      RemoveDotsShorter(input[3..], WithoutLast(output));
    } else if input == "/.." {
      RemoveDotsShorter("/", WithoutLast(output));
    } else if input != "." && input != ".." {
      FirstSegmentShorter(input);
      RemoveDotsShorter(input[|FirstSegment(input)|..], output + FirstSegment(input));
    }
  }

  lemma BeforeIs(path: string, w: string)
    requires '/' !in w
    ensures Before(path, '/') == w <==> path == w || w + "/" <= path
  {
    var seg := Before(path, '/');
    if '/' in path {
      var i := IndexOf(path, '/');
      if w + "/" <= path {
        assert path[|w|] == (w + "/")[|w|] && path[..|w|] == (w + "/")[..|w|] == w;
        IndexOfUnique(path, '/', |w|);
      }
      if seg == w {
        assert path[..i + 1] == w + "/";
      }
    } else {
      NoLongerPrefix(path, w);
    }
  }

  lemma NoLongerPrefix(path: string, w: string)
    ensures w + "/" <= path ==> '/' in path
  {
    assert w + "/" <= path ==> path[|w|] == (w + "/")[|w|];
  }

  lemma SlashFirst(w: string, path: string)
    ensures "/" + w <= "/" + path <==> w <= path
    ensures "/" + w == "/" + path <==> w == path
  {
    assert ("/" + path)[1..] == path && ("/" + w)[1..] == w;
    if "/" + w <= "/" + path {
      assert ("/" + path)[..1 + |w|][1..] == path[..|w|];
    }
    if w <= path {
      assert ("/" + path)[..1 + |w|] == "/" + path[..|w|];
    }
  }

  predicate DotOpening(input: string) {
    StartsWith(input, "/./") || input == "/." || StartsWith(input, "/../") || input == "/.."
  }

  /** A path that begins with a slash opens with a dot segment in one of the four ways the algorithm looks for. */
  lemma OpensWithDots(path: string)
    ensures IsDotSegment(Before(path, '/')) <==> DotOpening("/" + path)
  {
    BeforeIs(path, ".");
    BeforeIs(path, "..");
    SlashFirst(".", path);
    SlashFirst("..", path);
    SlashFirst("./", path);
    SlashFirst("../", path);
    assert "." + "/" == "./" && ".." + "/" == "../";
    assert "/" + "." == "/." && "/" + ".." == "/.." && "/" + "./" == "/./" && "/" + "../" == "/../";
    PrefixIs("/" + path, "/./");
    PrefixIs("/" + path, "/../");
  }

  lemma PrefixIs(s: string, w: string)
    ensures StartsWith(s, w) <==> w <= s
  {
  }

  lemma FirstStep(path: string, output: string)
    requires !IsDotSegment(Before(path, '/'))
    ensures var seg := Before(path, '/');
      |seg| <= |path| && RemoveDots("/" + path, output) == RemoveDots(path[|seg|..], output + ("/" + seg))
  {
    hide Before, IsDotSegment;
    OpensWithDots(path);
    CutRejoins(path, '/');
    var input, seg := "/" + path, Before(path, '/');
    assert input[1..] == path && input[0] == '/';
    assert FirstSegment(input) == "/" + seg;
    assert input[1 + |seg|..] == path[|seg|..];
    SlashIsNoDot(input);
  }

  lemma SlashIsNoDot(input: string)
    requires input != "" && input[0] == '/'
    ensures !StartsWith(input, "../") && !StartsWith(input, "./") && input != "." && input != ".."
  {
    PrefixIs(input, "../");
    PrefixIs(input, "./");
  }

  lemma SplitBefore(path: string)
    ensures '/' in path ==> var i := IndexOf(path, '/');
      i == |Before(path, '/')| && path[i..] == "/" + path[i + 1..]
        && Split(path, '/') == [Before(path, '/')] + Split(path[i + 1..], '/')
    ensures '/' !in path ==> Before(path, '/') == path && Split(path, '/') == [path]
  {
    hide Split;
    if '/' in path {
      SplitStep(path, '/');
    } else {
      NothingToSplit(path, '/');
    }
  }

  /** A rooted path comes out of the algorithm unchanged exactly when it has no dot segment, and otherwise shorter. */
  lemma {:induction false} RemoveDotsIff(path: string, output: string)
    ensures NoDots(path) ==> RemoveDots("/" + path, output) == output + ("/" + path)
    ensures !NoDots(path) ==> |RemoveDots("/" + path, output)| < |output| + 1 + |path|
    decreases |path|
  {
    hide RemoveDots, Before, Split, IsDotSegment;
    var seg := Before(path, '/');
    SplitBefore(path);
    if IsDotSegment(seg) {
      DotStep(path, output);
      assert !NoDots(path) by { assert seg in Split(path, '/'); }
    } else {
      FirstStep(path, output);
      if '/' in path {
        var rest := path[IndexOf(path, '/') + 1..];
        RemoveDotsIff(rest, output + ("/" + seg));
        CutRejoins(path, '/');
        assert path == seg + ("/" + rest);
        assert output + ("/" + seg) + ("/" + rest) == output + ("/" + path);
        assert NoDots(path) <==> NoDots(rest);
      } else {
        assert path[|seg|..] == "";
        NothingLeft(output + ("/" + seg));
      }
    }
  }

  lemma NothingLeft(output: string)
    ensures RemoveDots("", output) == output
  {
  }

  lemma DotStep(path: string, output: string)
    requires IsDotSegment(Before(path, '/'))
    ensures |RemoveDots("/" + path, output)| < |output| + 1 + |path|
  {
    hide Before, WithoutLast, FirstSegment, IsDotSegment;
    var input := "/" + path;
    OpensWithDots(path);
    SlashIsNoDot(input);
    WithoutLastShorter(output);
    RemoveDotsShorter("/", output);
    RemoveDotsShorter("/", WithoutLast(output));
    if StartsWith(input, "/./") {
      RemoveDotsShorter(input[2..], output);
    } else if input != "/." && StartsWith(input, "/../") {
      RemoveDotsShorter(input[3..], WithoutLast(output));
    }
  }

  // ----- references read against the root of an authority -----

  /** The base is a scheme, an authority and the path `/`. */
  ghost predicate IsRoot(base: string) {
    HasScheme(base)
    && var r := Parse(base[IndexOf(base, ':') + 1..]);
    r.authority.Some? && r.path == "/" && r.query.None? && r.fragment.None?
  }

  /** A reference that goes down from the root and nowhere else: no scheme, no leading slash, and no dot segment
      in its path. What follows a `?` or a `#` is free. */
  predicate IsPlainTail(s: string) {
    !HasScheme(s) && s != "" && s[0] != '/' && NoDots(Parse(s).path)
  }

  lemma OpensWithSlash(s: string)
    ensures Parse(s).authority.Some? ==> s != "" && s[0] == '/'
    ensures Parse(s).authority.None? && s != "" ==> (s[0] == '/' <==> Parse(s).path != "" && Parse(s).path[0] == '/')
  {
    PartsMakeUp(s);
  }

  lemma RemoveDotsRooted(path: string)
    requires path != "" && path[0] != '/'
    ensures NoDots(path) ==> RemoveDots("/" + path, "") == "/" + path
    ensures !NoDots(path) ==> |RemoveDots("/" + path, "")| < 1 + |path|
  {
    RemoveDotsIff(path, "");
    assert "" + ("/" + path) == "/" + path;
  }

  /** The target under the root, against what is written: the same text with the root before it, or a shorter one. */
  lemma TargetUnderRoot(root: Parts, s: string)
    requires root.authority.Some? && root.path == "/" && root.query.None? && root.fragment.None?
    requires s != "" && !HasScheme(s)
    ensures IsPlainTail(s) ==> Written(Target(root, Parse(s))) == Written(root) + s
    ensures !IsPlainTail(s) ==> |Written(Target(root, Parse(s)))| < |Written(root)| + |s|
  {
    hide Parse, RemoveDots, NoDots, HasScheme;
    PartsMakeUp(s);
    OpensWithSlash(s);
    var r := Parse(s);
    RemoveDotsShorter(r.path, "");
    if r.authority.None? && r.path == "" {
      EmptyPathPlain();
      UnderRoot(root.authority.value, "", Prefixed("?", r.query), Prefixed("#", r.fragment));
    } else if r.authority.None? && r.path[0] != '/' {
      MergedAtRoot(root, r.path);
      RemoveDotsRooted(r.path);
      UnderRoot(root.authority.value, r.path, Prefixed("?", r.query), Prefixed("#", r.fragment));
    }
  }

  lemma EmptyPathPlain()
    ensures NoDots("")
  {
  }

  lemma MergedAtRoot(root: Parts, path: string)
    requires root.path == "/"
    ensures Merge(root, path) == "/" + path
  {
    assert "/"[..1] == "/";
  }

  lemma UnderRoot(a: string, path: string, q: string, f: string)
    ensures "//" + a + ("/" + path) + q + f == ("//" + a + "/" + "" + "") + ("" + path + q + f)
  {
  }

  /** A reference that has no scheme, read against a root: it stands for what it says under the root exactly
      when it is plain; otherwise for something shorter than that. */
  lemma ResolvedUnderRoot(base: string, s: string)
    requires IsRoot(base) && s != "" && !HasScheme(s)
    ensures IsPlainTail(s) ==> Resolved(base, s) == base + s
    ensures !IsPlainTail(s) ==> |Resolved(base, s)| < |base| + |s|
  {
    hide Parse, Written, Target, HasScheme, IsPlainTail;
    var k := IndexOf(base, ':') + 1;
    var root := Parse(base[k..]);
    PartsMakeUp(base[k..]);
    TargetUnderRoot(root, s);
    assert base == base[..k] + base[k..];
    assert base[..k] + (base[k..] + s) == base + s;
  }

  lemma AuthorityPart(a: string)
    requires '/' !in a && '#' !in a && '?' !in a
    ensures Parse("//" + (a + "/")) == Parts(Some(a), "/", None, None)
  {
    var tail := a + "/";
    var rest := "//" + tail;
    assert '#' !in tail && '?' !in tail;
    assert forall c <- rest :: c == '/' || c in tail;
    assert rest[..2] == "//" && rest[2..] == tail;
    assert tail[|a|] == '/' && tail[..|a|] == a && tail[|a|..] == "/";
    IndexOfUnique(tail, '/', |a|);
  }

  predicate IsSchemeName(scheme: string) {
    scheme != "" && (forall c <- scheme :: IsSchemeChar(c)) && !('0' <= scheme[0] <= '9')
      && scheme[0] !in {'+', '-', '.'}
  }

  lemma SchemePart(scheme: string, rest: string)
    requires IsSchemeName(scheme)
    ensures var base := scheme + ([':'] + rest);
      HasScheme(base) && IndexOf(base, ':') == |scheme| && base[|scheme| + 1..] == rest
  {
    var base := scheme + ([':'] + rest);
    assert ':' !in scheme;
    assert base[|scheme|] == ':' && base[..|scheme|] == scheme && base[0] == scheme[0];
    IndexOfUnique(base, ':', |scheme|);
    assert base[|scheme| + 1..] == rest;
  }

  lemma SchemeAndAuthority(scheme: string, a: string)
    requires IsSchemeName(scheme) && '/' !in a && '#' !in a && '?' !in a
    ensures IsRoot(scheme + ([':'] + ("//" + (a + "/"))))
  {
    hide Parse, HasScheme, IsSchemeName;
    SchemePart(scheme, "//" + (a + "/"));
    AuthorityPart(a);
  }
}
