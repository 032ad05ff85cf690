/** Markdown link healing after renames (src/heal.rs). */
module Heal {
  import opened Wrappers
  import opened Text
  import opened PercentCoding
  import opened Paths
  import Links
  import NQuads
  import Utf8

  type Rename = (string, string)

  // ----- git's rename records -----

  function NonEmpty(parts: seq<string>): seq<string> {
    if parts == [] then [] else (if parts[0] == "" then [] else [parts[0]]) + NonEmpty(parts[1..])
  }

  /** What the record reader takes from the remaining fields. */
  function Renames(fields: seq<string>): seq<Rename> {
    if fields == [] then []
    else if StartsWith(fields[0], "R") then
      if |fields| >= 3 then [(fields[1], fields[2])] + Renames(fields[3..]) else []
    else
      var n := if StartsWith(fields[0], "C") then 3 else 2;
      if |fields| <= n then [] else Renames(fields[n..])
  }

  /** `parse_rename_records`: one pass over the fields. */
  method ParseRenameRecords(raw: string) returns (renames: seq<Rename>)
    ensures renames == Renames(NonEmpty(Split(raw, '\0')))
  {
    var fields := NonEmpty(Split(raw, '\0'));
    renames := [];
    var i := 0;
    assert fields[0..] == fields;
    while i < |fields|
      invariant 0 <= i
      invariant i <= |fields| ==> renames + Renames(fields[i..]) == Renames(fields)
      invariant i > |fields| ==> renames == Renames(fields)
    {
      var rest := fields[i..];
      if StartsWith(fields[i], "R") {
        if i + 2 < |fields| {
          assert rest[3..] == fields[i + 3..];
          renames := renames + [(fields[i + 1], fields[i + 2])];
        } else {
          assert Renames(rest) == [] && renames + [] == renames;
        }
        i := i + 3;
      } else {
        var extra := if StartsWith(fields[i], "C") then 2 else 1;
        if i + 1 + extra < |fields| {
          assert rest[1 + extra..] == fields[i + 1 + extra..];
        } else {
          assert Renames(rest) == [] && renames + [] == renames;
        }
        i := i + 1 + extra;
        assert i <= |fields| && fields[i..] == [] ==> Renames(fields[i..]) == [];
      }
    }
    if i == |fields| {
      assert fields[i..] == [] && renames + [] == renames;
    }
  }

  /** One record of `git diff --name-status -z`. */
  datatype Record = Renamed(score: string, old_: string, new_: string)
                  | Copied(score: string, from: string, to: string)
                  | Other(status: char, path: string)

  predicate IsField(s: string) {
    s != "" && '\0' !in s
  }

  predicate IsRecord(r: Record) {
    match r
    case Renamed(score, a, b) => '\0' !in score && IsField(a) && IsField(b)
    case Copied(score, a, b) => '\0' !in score && IsField(a) && IsField(b)
    case Other(status, p) => status != 'R' && status != 'C' && status != '\0' && IsField(p)
  }

  function Fields(r: Record): seq<string> {
    match r
    case Renamed(score, a, b) => ["R" + score, a, b]
    case Copied(score, a, b) => ["C" + score, a, b]
    case Other(status, p) => [[status], p]
  }

  function Terminated(fields: seq<string>): string {
    if fields == [] then "" else fields[0] + ['\0'] + Terminated(fields[1..])
  }

  function Written(records: seq<Record>): string {
    if records == [] then "" else Terminated(Fields(records[0])) + Written(records[1..])
  }

  function AllFields(records: seq<Record>): seq<string> {
    if records == [] then [] else Fields(records[0]) + AllFields(records[1..])
  }

  function RenamesOf(records: seq<Record>): seq<Rename> {
    if records == [] then []
    else (if records[0].Renamed? then [(records[0].old_, records[0].new_)] else []) + RenamesOf(records[1..])
  }

  lemma {:induction false} TerminatedConcat(a: seq<string>, b: seq<string>)
    ensures Terminated(a + b) == Terminated(a) + Terminated(b)
  {
    if a == [] {
      assert a + b == b;
    } else {
      assert (a + b)[1..] == a[1..] + b;
      TerminatedConcat(a[1..], b);
    }
  }

  lemma {:induction false} WrittenIsTerminated(records: seq<Record>)
    ensures Written(records) == Terminated(AllFields(records))
  {
    hide Fields;
    if records != [] {
      WrittenIsTerminated(records[1..]);
      TerminatedConcat(Fields(records[0]), AllFields(records[1..]));
    }
  }

  lemma {:induction false} FieldsReadBack(fields: seq<string>)
    requires forall f <- fields :: IsField(f)
    ensures NonEmpty(Split(Terminated(fields), '\0')) == fields
  {
    if fields != [] {
      assert IsField(fields[0]);
      FieldsReadBack(fields[1..]);
      SplitFirst(fields[0], '\0', Terminated(fields[1..]));
      var parts := Split(Terminated(fields[1..]), '\0');
      assert ([fields[0]] + parts)[1..] == parts;
    }
  }

  lemma RecordFields(r: Record)
    requires IsRecord(r)
    ensures forall f <- Fields(r) :: IsField(f)
  {
  }

  lemma {:induction false} AllFieldsAreFields(records: seq<Record>)
    requires forall r <- records :: IsRecord(r)
    ensures forall f <- AllFields(records) :: IsField(f)
  {
    hide IsField, IsRecord, Fields;
    if records != [] {
      RecordFields(records[0]);
      AllFieldsAreFields(records[1..]);
    }
  }

  lemma RecordFirst(r: Record, rest: seq<string>)
    requires IsRecord(r)
    ensures Renames(Fields(r) + rest) == (if r.Renamed? then [(r.old_, r.new_)] else []) + Renames(rest)
  {
    var fields := Fields(r) + rest;
    assert fields[0] == Fields(r)[0] && fields[|Fields(r)|..] == rest;
    match r {
      case Renamed(score, _, _) => assert ("R" + score)[0] == 'R';
      case Copied(score, _, _) => assert ("C" + score)[0] == 'C';
      case Other(status, _) => assert [status][0] == status;
    }
  }

  lemma {:induction false} FieldsGiveRenames(records: seq<Record>)
    requires forall r <- records :: IsRecord(r)
    ensures Renames(AllFields(records)) == RenamesOf(records)
  {
    hide IsRecord, Fields, Renames;
    if records == [] {
      assert Renames([]) == [] by { NoRenames(); }
    } else {
      RecordFirst(records[0], AllFields(records[1..]));
      FieldsGiveRenames(records[1..]);
    }
  }

  lemma NoRenames()
    ensures Renames([]) == []
  {
  }

  /** Whatever statuses surround them -- copies carry two paths, everything else one -- exactly the renames
      are read, in order. */
  lemma RecordsReadBack(records: seq<Record>)
    requires forall r <- records :: IsRecord(r)
    ensures Renames(NonEmpty(Split(Written(records), '\0'))) == RenamesOf(records)
  {
    hide Renames, IsRecord, IsField;
    WrittenIsTerminated(records);
    AllFieldsAreFields(records);
    FieldsReadBack(AllFields(records));
    FieldsGiveRenames(records);
  }

  // ----- one destination -----

  function NewPath(renames: seq<Rename>, path: string): Option<string> {
    if renames == [] then None
    else if renames[0].0 == path then Some(renames[0].1)
    else NewPath(renames[1..], path)
  }

  function SpacesEncoded(path: string): string {
    NQuads.Replace(path, ' ', "%20")
  }

  /** The canonical form: from the root, spaces encoded, the fragment kept. */
  function Canonical(newPath: string, dest: string): string {
    "/" + SpacesEncoded(newPath) + Fragment(dest)
  }

  function HealedDest(dest: string, dir: string, renames: seq<Rename>): Option<string> {
    if IsExternal(dest) then None
    else match ResolvedLink(dest, dir)
      case None => None
      case Some(resolved) =>
        match NewPath(renames, resolved)
        case Some(newPath) => Some(Canonical(newPath, dest))
        case None => None
  }

  // ----- what a written path decodes to -----

  /** The decoder takes some part of the path for an escape. */
  predicate HasEscape(s: string) {
    s != "" && (OpensCharEscape(s) || HasEscape(s[1..]))
  }

  lemma DecodedSpace(t: string)
    ensures Decoded("%20" + t) == " " + Decoded(t)
  {
    var s := "%20" + t;
    assert s[3..] == t && OpensCharEscape(s);
    assert HexPair(s[1] as int, s[2] as int) == Some(0x20);
    DecodeChars(s);
    Utf8.LossyCons(' ', DecodeBytes(Utf8.Bytes(t)));
  }

  lemma SpacesEncodedCons(s: string)
    requires s != ""
    ensures SpacesEncoded(s) == (if s[0] == ' ' then "%20" else [s[0]]) + SpacesEncoded(s[1..])
  {
  }

  lemma HexIsPlain(hi: char, lo: char)
    requires hi < '\U{80}' && lo < '\U{80}' && HexPair(hi as int, lo as int).Some?
    ensures hi !in {' ', '%', '.'} && lo !in {' ', '%', '.'}
  {
  }

  /** Encoding the spaces neither makes nor breaks an escape. */
  lemma EscapeKept(s: string)
    requires s != "" && s[0] != ' '
    ensures OpensCharEscape(SpacesEncoded(s)) <==> OpensCharEscape(s)
    ensures OpensCharEscape(s) ==>
      SpacesEncoded(s)[..3] == s[..3] && SpacesEncoded(s)[3..] == SpacesEncoded(s[3..])
  {
    hide NQuads.Replace, HexPair, SpacesEncoded;
    var e := SpacesEncoded(s);
    SpacesEncodedCons(s);
    assert "%20"[0] == '%';
    if |s| > 1 {
      SpacesEncodedCons(s[1..]);
      assert s[1..][1..] == s[2..] && s[1..][0] == s[1];
      assert e[1] == if s[1] == ' ' then '%' else s[1];
      if |s| > 2 {
        SpacesEncodedCons(s[2..]);
        assert s[2..][1..] == s[3..] && s[2..][0] == s[2];
        assert s[1] != ' ' ==> e[2] == if s[2] == ' ' then '%' else s[2];
      } else {
        assert s[2..] == "" && SpacesEncoded("") == "" by { NoSpaces(); }
      }
    } else {
      assert s[1..] == "" && SpacesEncoded("") == "" by { NoSpaces(); }
    }
    if OpensCharEscape(e) {
      HexIsPlain(e[1], e[2]);
    }
    if OpensCharEscape(s) {
      HexIsPlain(s[1], s[2]);
    }
  }

  lemma NoSpaces()
    ensures SpacesEncoded("") == ""
  {
  }

  /** `w` is what `s` decodes to: the same text when `s` holds no escape, else a shorter one that still has
      the extension. */
  predicate DecodesTo(s: string, w: string) {
    (if HasEscape(s) then |w| < |s| else w == s) && (EndsWith(s, ".md") ==> EndsWith(w, ".md"))
  }

  lemma {:induction false} SpacesDecode(s: string)
    ensures DecodesTo(s, Decoded(SpacesEncoded(s)))
    decreases |s|
  {
    hide Decoded, SpacesEncoded, EndsWith, OpensCharEscape;
    if s == "" {
      NoSpaces();
      Links.DecodedEmpty();
    } else if OpensCharEscape(s) {
      EscapeDecode(s);
    } else {
      SpacesDecode(s[1..]);
      SpacesEncodedCons(s);
      var e, w := SpacesEncoded(s), Decoded(SpacesEncoded(s[1..]));
      if s[0] == ' ' {
        DecodedSpace(SpacesEncoded(s[1..]));
      } else {
        EscapeKept(s);
        assert e[1..] == SpacesEncoded(s[1..]);
        Links.DecodedLiteral(e);
      }
      DecodesCons(s, w);
    }
  }

  lemma DecodesCons(s: string, w: string)
    requires s != "" && !OpensCharEscape(s) && DecodesTo(s[1..], w)
    ensures DecodesTo(s, [s[0]] + w)
  {
    hide OpensCharEscape;
    var w1 := [s[0]] + w;
    if EndsWith(s, ".md") {
      if |s| > 3 {
        assert s[1..][|s| - 4..] == s[|s| - 3..];
        assert w1[|w1| - 3..] == w[|w| - 3..];
      } else {
        assert s == ".md";
        ShortNoEscape("md");
        ShortNoEscape("d");
        assert !HasEscape("md");
        assert s[1..] == "md" && w == "md" && w1 == ".md";
      }
    }
  }

  lemma ShortNoEscape(s: string)
    requires |s| <= 2
    ensures !OpensCharEscape(s)
  {
  }

  lemma EscapeDecode(s: string)
    requires OpensCharEscape(s)
    ensures DecodesTo(s, Decoded(SpacesEncoded(s)))
    decreases |s|, 0
  {
    hide Decoded, SpacesEncoded, HexPair;
    assert s[0] != ' ';
    EscapeKept(s);
    HexIsPlain(s[1], s[2]);
    var t := s[3..];
    var e := SpacesEncoded(s);
    assert e[3..] == SpacesEncoded(t);
    SpacesDecode(t);
    var w, wt := Decoded(e), Decoded(SpacesEncoded(t));
    var m := Links.DecodedEscape(e);
    assert |wt| <= |t|;
    if EndsWith(s, ".md") {
      EscapeSuffix(s, t);
      assert wt[|wt| - 3..][0] == wt[|wt| - 3] == '.';
      assert wt[|wt| - 3..][1] == wt[|wt| - 2] == 'm';
      assert wt[|wt| - 3..][2] == wt[|wt| - 1] == 'd';
      assert m <= |wt| - 3;
      assert w[1..] == wt[m..];
      assert w[|w| - 3..] == wt[|wt| - 3..];
    }
  }

  lemma EscapeSuffix(s: string, t: string)
    requires OpensCharEscape(s) && t == s[3..] && EndsWith(s, ".md")
    ensures EndsWith(t, ".md")
  {
    hide HexPair;
    HexIsPlain(s[1], s[2]);
    assert s[|s| - 3..][0] == s[|s| - 3] == '.';
    assert t[|t| - 3..] == s[|s| - 3..];
  }

  // ----- how long a normalised path can be -----

  function Weight(segs: seq<string>): nat {
    if segs == [] then 0 else |segs[0]| + 1 + Weight(segs[1..])
  }

  lemma {:induction false} WeightConcat(a: seq<string>, b: seq<string>)
    ensures Weight(a + b) == Weight(a) + Weight(b)
  {
    if a == [] {
      assert a + b == b;
    } else {
      assert (a + b)[1..] == a[1..] + b;
      WeightConcat(a[1..], b);
    }
  }

  lemma WeightOne(seg: string)
    ensures Weight([seg]) == |seg| + 1
  {
  }

  lemma {:induction false} SplitWeight(s: string)
    ensures Weight(Split(s, '/')) == |s| + 1
    decreases |s|
  {
    if '/' in s {
      SplitWeight(s[IndexOf(s, '/') + 1..]);
    }
  }

  lemma {:induction false} JoinWeight(parts: seq<string>)
    requires parts != []
    ensures |Join(parts, "/")| + 1 == Weight(parts)
  {
    if |parts| > 1 {
      JoinWeight(parts[1..]);
    }
  }

  lemma {:induction false} WalkedWeight(segs: seq<string>, stack: seq<string>)
    ensures Walked(segs, stack).Some? ==> Weight(Walked(segs, stack).value) <= Weight(stack) + Weight(segs)
  {
    if segs != [] {
      if IsSkipped(segs[0]) {
        WalkedWeight(segs[1..], stack);
      } else if segs[0] == ".." {
        if stack != [] {
          var last := stack[|stack| - 1];
          assert stack == stack[..|stack| - 1] + [last];
          WeightConcat(stack[..|stack| - 1], [last]);
          WalkedWeight(segs[1..], stack[..|stack| - 1]);
        }
      } else {
        WeightConcat(stack, [segs[0]]);
        WeightOne(segs[0]);
        WalkedWeight(segs[1..], stack + [segs[0]]);
      }
    }
  }

  /** Normalising a rooted target never lengthens it, except by the extension it adds to a name without a dot. */
  lemma NormalizedLength(target: string, dir: string)
    requires Normalized("/" + target, dir).Some?
    ensures var r := Normalized("/" + target, dir).value;
      |r| <= |target| || (EndsWith(r, ".md") && |r| <= |target| + 3 && !EndsWith(target, ".md"))
  {
    hide Walked, EndsWith;
    assert ("/" + target)[1..] == target && Combined("/" + target, dir) == target;
    var segs := Split(target, '/');
    SplitWeight(target);
    WalkedWeight(segs, []);
    var stack := Walked(segs, []).value;
    JoinWeight(stack);
    if EndsWith(target, ".md") {
      LastSegmentSuffix(target);
      Links.WalkedEndsInName(segs, []);
    }
    if '.' !in stack[|stack| - 1] {
      SuffixEnds(Join(stack, "/"));
    }
  }

  lemma SuffixEnds(s: string)
    ensures EndsWith(s + ".md", ".md")
  {
  }

  lemma {:induction false} LastSegmentSuffix(s: string)
    requires EndsWith(s, ".md")
    ensures var segs := Split(s, '/');
      Links.LastMeant(segs) == Some(segs[|segs| - 1]) && '.' in segs[|segs| - 1] && segs[|segs| - 1] != ".."
    decreases |s|
  {
    assert s[|s| - 3..][0] == s[|s| - 3] == '.' && s[|s| - 3..][1] == s[|s| - 2] == 'm'
      && s[|s| - 3..][2] == s[|s| - 1] == 'd';
    if '/' in s {
      var i := IndexOf(s, '/');
      var t := s[i + 1..];
      assert i < |s| - 3;
      assert t[|t| - 3..] == s[|s| - 3..];
      LastSegmentSuffix(t);
      Links.LastMeantConcat([s[..i]], Split(t, '/'));
    }
  }

  // ----- a healed link finds the moved file -----

  /** The new path needs no more encoding than its spaces get. */
  predicate PlainPath(path: string) {
    '#' !in path && !HasEscape(path)
  }

  lemma CanonicalParts(newPath: string, dest: string)
    ensures PathPart(Canonical(newPath, dest)) == "/" + SpacesEncoded(PathPart(newPath))
    ensures '#' !in newPath ==> PathPart(newPath) == newPath && Fragment(Canonical(newPath, dest)) == Fragment(dest)
  {
    hide SpacesEncoded;
    if '#' in newPath {
      var i := IndexOf(newPath, '#');
      assert newPath == newPath[..i] + ("#" + newPath[i + 1..]);
      HashInPath(newPath[..i], newPath[i + 1..], Fragment(dest));
    } else {
      NoHash(newPath);
      var before := "/" + SpacesEncoded(newPath);
      var full := Canonical(newPath, dest);
      if '#' in dest {
        var i := IndexOf(dest, '#');
        assert full == before + dest[i..];
        assert full[..|before|] == before && full[|before|] == dest[i];
        IndexOfUnique(full, '#', |before|);
        assert full[|before|..] == dest[i..];
      } else {
        assert full == before + "" == before;
      }
    }
  }

  lemma HashInPath(head: string, tail: string, fragment: string)
    requires '#' !in head
    ensures PathPart("/" + SpacesEncoded(head + ("#" + tail)) + fragment) == "/" + SpacesEncoded(head)
  {
    hide NQuads.Replace, IndexOf;
    NQuads.ReplaceConcat(head, "#" + tail, ' ', "%20");
    NQuads.ReplaceConcat("#", tail, ' ', "%20");
    NQuads.ReplaceOne('#', ' ', "%20");
    NoHash(head);
    var h, t := SpacesEncoded(head), SpacesEncoded(tail);
    assert SpacesEncoded(head + ("#" + tail)) == h + ("#" + t);
    var full := "/" + (h + ("#" + t)) + fragment;
    assert full == ("/" + h) + ("#" + (t + fragment));
    var before := "/" + h;
    assert full[..|before|] == before && full[|before|] == '#';
    IndexOfUnique(full, '#', |before|);
  }

  lemma {:induction false} NoHash(s: string)
    requires '#' !in s
    ensures '#' !in SpacesEncoded(s)
  {
    if s != "" {
      NoHash(s[1..]);
      SpacesEncodedCons(s);
      assert '#' !in "%20" && '#' !in [s[0]];
    }
  }

  lemma SlashDecodes(s: string)
    ensures Decoded("/" + s) == "/" + Decoded(s)
  {
    assert !OpensCharEscape("/" + s) && ("/" + s)[1..] == s;
    Links.DecodedLiteral("/" + s);
  }

  /** From any document, a healed link resolves to the moved file's new path with the link's own fragment --
      exactly when that path is normal and holds no `#` and nothing the decoder takes for an escape.
      (Only spaces are encoded when the link is rewritten.) */
  lemma HealedResolvesIff(newPath: string, dest: string, dir: string)
    ensures ResolvedLink(Canonical(newPath, dest), dir) == Some(newPath)
      <==> IsNormalPath(newPath) && PlainPath(newPath)
    ensures PlainPath(newPath) ==> Fragment(Canonical(newPath, dest)) == Fragment(dest)
    ensures !IsExternal(Canonical(newPath, dest))
  {
    hide SpacesEncoded, Decoded, Normalized, IsNormalPath, HasEscape, EndsWith, Canonical;
    var part := PathPart(newPath);
    var w := Decoded(SpacesEncoded(part));
    CanonicalParts(newPath, dest);
    CanonicalStarts(newPath, dest);
    SlashDecodes(SpacesEncoded(part));
    SpacesDecode(part);
    assert ResolvedLink(Canonical(newPath, dest), dir) == Normalized("/" + w, dir);
    if PlainPath(newPath) {
      NormalizedRooted(newPath, dir);
    } else if Normalized("/" + w, dir) == Some(newPath) {
      NormalizedLength(w, dir);
      if part != newPath {
        assert |newPath| == |part| + |Fragment(newPath)|;
        HashBeforeExtension(newPath);
      }
    }
  }

  lemma HashBeforeExtension(path: string)
    requires '#' in path
    ensures EndsWith(path, ".md") ==> |path| > |PathPart(path)| + 3
    ensures |path| > |PathPart(path)|
  {
    if EndsWith(path, ".md") {
      assert path[|path| - 3..][0] == path[|path| - 3] == '.';
      assert path[|path| - 3..][1] == path[|path| - 2] == 'm';
      assert path[|path| - 3..][2] == path[|path| - 1] == 'd';
    }
  }

  lemma CanonicalStarts(newPath: string, dest: string)
    ensures !IsExternal(Canonical(newPath, dest))
  {
    assert Canonical(newPath, dest)[0] == '/';
  }
}
