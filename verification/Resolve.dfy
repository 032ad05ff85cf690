/** The two resolvers of authored references (src/resolve.rs) and the range lane
    (`thing_iri_from_range`, src/nquad.rs). Results are IRIs without their angle brackets. */
module Resolve {
  import opened Wrappers
  import opened Text
  import opened PercentCoding

  datatype ResolveResult = Iri(iri: string) | Unresolved(literal: string) | Rejected

  const RESOURCE_ROOT := "https://repolex.ai/"
  const THING_CLASS_IRI := "https://repolex.ai/ontology/git-lex/Thing"

  /** The repository's own instance base and the scaffold folder that maps onto it. */
  datatype Base = Base(base: string, strip: string)

  function Upper(c: char): char {
    if 'a' <= c <= 'z' then (c as int - 32) as char else c
  }

  /** `resource_base`: the namespace under the one root, and the folder named after it. */
  function BaseOf(ns: string): Base {
    var last := if '/' in ns then ns[LastIndexOf(ns, '/') + 1..] else ns;
    Base(RESOURCE_ROOT + ns, (if last == "" then "" else [Upper(last[0])] + last[1..]) + "/")
  }

  /** `resource_uri` */
  function ResourceUri(b: Base, path: string): string {
    if path == "" then b.base
    else b.base + "/" + (if StartsWith(path, b.strip) then path[|b.strip|..] else path)
  }

  /** The text between `<` and `>`. */
  function Unbracketed(s: string): Option<string> {
    if |s| >= 2 && s[0] == '<' && s[|s| - 1] == '>' then Some(s[1..|s| - 1]) else None
  }

  function FrontmatterValue(raw: string, b: Base): ResolveResult {
    if StartsWith(raw, "[[") || EndsWith(raw, "]]") then Rejected
    else if StartsWith(raw, "@") then Rejected
    else match Unbracketed(Trim(raw))
      case Some(text) =>
        var inner := Trim(text);
        if inner == "" then Rejected
        else if Has(inner, "://") then Iri(EncodedUrl(inner))
        else if '/' !in inner then Rejected
        else Iri(RESOURCE_ROOT + EncodedPath(inner))
      case None =>
        if StartsWith(raw, "http://") || StartsWith(raw, "https://") then Iri(EncodedUrl(raw))
        else if '/' in raw || EndsWith(raw, ".md") then Iri(ResourceUri(b, EncodedPath(raw)))
        else if Trim(raw) == "" then Unresolved(raw)
        else Rejected
  }

  function ThingReference(raw: string): Option<string> {
    match Unbracketed(Trim(raw))
    case None => None
    case Some(text) =>
      var inner := Trim(text);
      if inner == "" || Has(inner, "://") || '/' !in inner then None
      else Some(RESOURCE_ROOT + EncodedPath(inner))
  }

  /** `app_base_from_kit_ns` */
  function AppBase(ns: string): string {
    match Find(ns, "/ontology/")
    case Some(i) => if i + 10 <= |ns| then ns[..i] + "/" + ns[i + 10..] else ns
    case None => ns
  }

  function ThingIriFromRange(range: string, id: string): Option<string> {
    if '/' !in range then None
    else
      var cut := LastIndexOf(range, '/') + 1;
      if range[cut..] == "" then None
      else Some(AppBase(range[..cut]) + range[cut..] + "/" + EncodedPath(id))
  }

  /** A range that ends in a class name gives every id an address. */
  predicate IsClassRange(range: string) {
    '/' in range && range[LastIndexOf(range, '/') + 1..] != ""
  }

  // ----- laws -----

  /** The lane for Things of any class accepts a value exactly when the general resolver would read it as a
      bracketed identifier under the one root, and then they name the same Thing. In particular no accepted
      identifier depends on the writing repository. */
  lemma ThingLaneAgrees(raw: string, b: Base)
    ensures ThingReference(raw).Some? ==> FrontmatterValue(raw, b) == Iri(ThingReference(raw).value)
    ensures ThingReference(raw).Some? <==>
      FrontmatterValue(raw, b).Iri? && Unbracketed(Trim(raw)).Some? && !Has(Trim(Unbracketed(Trim(raw)).value), "://")
  {
    TrimStartShape(raw);
    TrimEndShape(TrimStart(raw));
    var t := Trim(raw);
    if Unbracketed(t).Some? {
      BracketedIsNoWikilink(raw);
    }
  }

  lemma BracketedIsNoWikilink(raw: string)
    requires Unbracketed(Trim(raw)).Some?
    ensures !StartsWith(raw, "[[") && !EndsWith(raw, "]]") && !StartsWith(raw, "@")
  {
    TrimStartShape(raw);
    TrimEndShape(TrimStart(raw));
    var t := Trim(raw);
    var k := |raw| - |TrimStart(raw)|;
    assert raw[k..] == TrimStart(raw);
    assert raw[k] == t[0] == '<';
    assert k > 0 ==> IsWhite(raw[0]);
    var e := k + |t| - 1;
    assert raw[e] == TrimStart(raw)[|t| - 1] == '>';
    assert e < |raw| - 1 ==> IsWhite(TrimStart(raw)[|TrimStart(raw)| - 1]);
    assert raw[|raw| - 1] == TrimStart(raw)[|TrimStart(raw)| - 1];
    assert |raw| >= 2 ==> raw[|raw| - 2..][1] == raw[|raw| - 1];
  }

  /** Two identifiers share an address only when they are the same identifier. */
  lemma ThingReferenceInjective(a: string, b: string)
    requires ThingReference(a).Some? && ThingReference(a) == ThingReference(b)
    ensures Trim(Unbracketed(Trim(a)).value) == Trim(Unbracketed(Trim(b)).value)
  {
    var x, y := Trim(Unbracketed(Trim(a)).value), Trim(Unbracketed(Trim(b)).value);
    assert (RESOURCE_ROOT + EncodedPath(x))[|RESOURCE_ROOT|..] == EncodedPath(x);
    assert (RESOURCE_ROOT + EncodedPath(y))[|RESOURCE_ROOT|..] == EncodedPath(y);
    DecodeEncode(x);
    DecodeEncode(y);
  }

  /** Under one range, two ids share an address only when they are the same id. */
  lemma RangeInjective(range: string, a: string, b: string)
    requires ThingIriFromRange(range, a).Some? && ThingIriFromRange(range, a) == ThingIriFromRange(range, b)
    ensures a == b
  {
    var cut := LastIndexOf(range, '/') + 1;
    var head := AppBase(range[..cut]) + range[cut..] + "/";
    assert (head + EncodedPath(a))[|head|..] == EncodedPath(a);
    assert (head + EncodedPath(b))[|head|..] == EncodedPath(b);
    DecodeEncode(a);
    DecodeEncode(b);
  }

  predicate ControlFree(s: string) {
    forall c <- s :: !IsControl(c)
  }

  lemma ControlFreePiece(s: string, a: nat, b: nat)
    requires ControlFree(s) && a <= b <= |s|
    ensures ControlFree(s[a..b])
  {
  }

  lemma ControlFreeTrim(s: string)
    requires ControlFree(s)
    ensures ControlFree(Trim(s))
  {
    TrimContained(s);
    var i: nat :| OccursAt(s, Trim(s), i);
    ControlFreePiece(s, i, i + |Trim(s)|);
  }

  lemma SafePiece(s: string, a: nat, b: nat)
    requires AllIriSafe(s) && a <= b <= |s|
    ensures AllIriSafe(s[a..b])
  {
  }

  lemma RootSafe()
    ensures AllIriSafe(RESOURCE_ROOT)
  {
  }

  lemma ResourceUriSafe(b: Base, path: string)
    requires AllIriSafe(b.base) && AllIriSafe(path)
    ensures AllIriSafe(ResourceUri(b, path))
  {
    var tail := if StartsWith(path, b.strip) then path[|b.strip|..] else path;
    assert tail == path[|path| - |tail|..|path|];
    SafePiece(path, |path| - |tail|, |path|);
    AllIriSafeConcat(b.base, "/");
    AllIriSafeConcat(b.base + "/", tail);
  }

  /** Every IRI the resolvers mint from a control-free value may stand in a statement. */
  lemma FrontmatterValueSafe(raw: string, b: Base)
    requires ControlFree(raw) && AllIriSafe(b.base)
    ensures FrontmatterValue(raw, b).Iri? ==> AllIriSafe(FrontmatterValue(raw, b).iri)
  {
    ControlFreeTrim(raw);
    EncodedUrlSafe(raw);
    EncodedPathSafe(raw);
    ResourceUriSafeFor(b, raw);
    if Unbracketed(Trim(raw)).Some? {
      var text := Unbracketed(Trim(raw)).value;
      ControlFreePiece(Trim(raw), 1, |Trim(raw)| - 1);
      ControlFreeTrim(text);
      EncodedUrlSafe(Trim(text));
      EncodedPathSafe(Trim(text));
      RootSafe();
      AllIriSafeConcat(RESOURCE_ROOT, EncodedPath(Trim(text)));
    }
  }

  lemma ResourceUriSafeFor(b: Base, raw: string)
    requires ControlFree(raw) && AllIriSafe(b.base)
    ensures AllIriSafe(ResourceUri(b, EncodedPath(raw)))
  {
    EncodedPathSafe(raw);
    ResourceUriSafe(b, EncodedPath(raw));
  }

  lemma ThingReferenceSafe(raw: string)
    requires ControlFree(raw)
    ensures ThingReference(raw).Some? ==> AllIriSafe(ThingReference(raw).value)
  {
    var b := Base("", "");
    FrontmatterValueSafe(raw, b);
    ThingLaneAgrees(raw, b);
  }

  lemma RangeSafe(range: string, id: string)
    requires AllIriSafe(range) && ControlFree(id)
    ensures ThingIriFromRange(range, id).Some? ==> AllIriSafe(ThingIriFromRange(range, id).value)
  {
    if ThingIriFromRange(range, id).Some? {
      var cut := LastIndexOf(range, '/') + 1;
      EncodedPathSafe(id);
      assert range[..cut] == range[0..cut] && range[cut..] == range[cut..|range|];
      SafePiece(range, 0, cut);
      SafePiece(range, cut, |range|);
      AppBaseSafe(range[..cut]);
      AllIriSafeConcat(AppBase(range[..cut]), range[cut..]);
      AllIriSafeConcat(AppBase(range[..cut]) + range[cut..], "/");
      AllIriSafeConcat(AppBase(range[..cut]) + range[cut..] + "/", EncodedPath(id));
    }
  }

  lemma AppBaseSafe(ns: string)
    requires AllIriSafe(ns)
    ensures AllIriSafe(AppBase(ns))
  {
    match Find(ns, "/ontology/") {
      case None =>
      case Some(i) =>
        assert ns[..i] == ns[0..i] && ns[i + 10..] == ns[i + 10..|ns|];
        SafePiece(ns, 0, i);
        SafePiece(ns, i + 10, |ns|);
        AllIriSafeConcat(ns[..i], "/");
        AllIriSafeConcat(ns[..i] + "/", ns[i + 10..]);
    }
  }
}
