/** The spine file (`write_spine_file`, src/export_spine.rs): every named fact as one tab-separated row,
    with IRIs shortened against the prefixes and the base its header declares. */
module Spine {
  import opened Wrappers
  import opened Text
  import opened Sorting
  import NQuads

  const SPINE_BASE := "https://repolex.ai/"

  /** Name with its colon, and namespace. */
  type Binding = (string, string)

  /** An RDF term. A text's tag is empty or its language tag. */
  datatype Term = Iri(iri: string) | Literal(text: string, tag: string) | Typed(text: string, datatypeIri: string)
                | Blank(id: string) | Triple

  datatype Fact = Fact(s: Term, p: string, o: Term)

  /** N-Triples form. */
  function Rendered(t: Term): string {
    match t
    case Iri(iri) => "<" + iri + ">"
    case Literal(text, tag) => "\"" + NQuads.NqEscape(text) + "\"" + tag
    case Typed(text, dt) => "\"" + NQuads.NqEscape(text) + "\"^^" + ("<" + dt + ">")
    case Blank(id) => "_:" + id
    case Triple => ""
  }

  // ----- shortening -----

  /** Stable sort, longest namespace first. */
  function InsertBinding(b: Binding, s: seq<Binding>): seq<Binding> {
    if s == [] || |b.1| >= |s[0].1| then [b] + s else [s[0]] + InsertBinding(b, s[1..])
  }

  function LongestFirst(s: seq<Binding>): seq<Binding> {
    if s == [] then [] else InsertBinding(s[0], LongestFirst(s[1..]))
  }

  /** The text between `<` and `>`. */
  function Inner(term: string): Option<string> {
    if |term| >= 2 && term[0] == '<' && term[|term| - 1] == '>' then Some(term[1..|term| - 1]) else None
  }

  predicate Matches(b: Binding, iri: string) {
    b.1 < iri
  }

  function FirstMatch(bindings: seq<Binding>, iri: string, from: nat): Option<nat>
    requires from <= |bindings|
    decreases |bindings| - from
  {
    if from == |bindings| then None
    else if Matches(bindings[from], iri) then Some(from)
    else FirstMatch(bindings, iri, from + 1)
  }

  /** How a term is written. */
  datatype Form = Prefixed(i: nat) | Relative | AsIs

  function FormOf(bindings: seq<Binding>, term: string): (f: Form)
    ensures f.Prefixed? ==> f.i < |bindings|
  {
    match Inner(term)
    case None => AsIs
    case Some(iri) =>
      MatchBound(bindings, iri, 0);
      match FirstMatch(bindings, iri, 0)
      case Some(i) => Prefixed(i)
      case None => if SPINE_BASE < iri then Relative else AsIs
  }

  lemma {:induction false} MatchBound(bindings: seq<Binding>, iri: string, from: nat)
    requires from <= |bindings|
    ensures FirstMatch(bindings, iri, from).Some? ==>
      var i := FirstMatch(bindings, iri, from).value;
      from <= i < |bindings| && Matches(bindings[i], iri) && forall j :: from <= j < i ==> !Matches(bindings[j], iri)
    ensures FirstMatch(bindings, iri, from).None? ==> forall j :: from <= j < |bindings| ==> !Matches(bindings[j], iri)
    decreases |bindings| - from
  {
    hide Matches;
    if from < |bindings| && !Matches(bindings[from], iri) {
      MatchBound(bindings, iri, from + 1);
    }
  }

  function Shortened(bindings: seq<Binding>, term: string): string {
    match FormOf(bindings, term)
    case Prefixed(i) =>
      FormMatches(bindings, term);
      bindings[i].0 + Inner(term).value[|bindings[i].1|..]
    case Relative => "<" + Inner(term).value[|SPINE_BASE|..] + ">"
    case AsIs => term
  }

  lemma FormMatches(bindings: seq<Binding>, term: string)
    ensures FormOf(bindings, term).Prefixed? ==>
      Inner(term).Some? && Matches(bindings[FormOf(bindings, term).i], Inner(term).value)
  {
    if Inner(term).Some? {
      MatchBound(bindings, Inner(term).value, 0);
    }
  }

  /** `rfind` */
  function FindLast(s: string, sub: string, upTo: nat): Option<nat>
    decreases upTo
  {
    if OccursAt(s, sub, upTo) then Some(upTo) else if upTo == 0 then None else FindLast(s, sub, upTo - 1)
  }

  const TYPE_MARK := "\"^^<"

  /** Where a typed literal's datatype begins. */
  function DatatypeAt(term: string): (r: Option<nat>)
    ensures r.Some? ==> r.value <= |term|
  {
    if term == "" || term[0] != '"' then None
    else match FindLast(term, TYPE_MARK, |term|)
      case Some(i) => if i + 3 <= |term| then Some(i + 3) else None
      case None => None
  }

  function ObjectForm(bindings: seq<Binding>, term: string): (f: Form)
    ensures f.Prefixed? ==> f.i < |bindings|
  {
    if term != "" && term[0] == '"' then
      match DatatypeAt(term) case Some(k) => FormOf(bindings, term[k..]) case None => AsIs
    else FormOf(bindings, term)
  }

  function ShortenedObject(bindings: seq<Binding>, term: string): string {
    if term != "" && term[0] == '"' then
      match DatatypeAt(term) case Some(k) => term[..k] + Shortened(bindings, term[k..]) case None => term
    else Shortened(bindings, term)
  }

  function EscapeTsv(term: string): string {
    NQuads.Replace(term, '\t', "\\t")
  }

  // ----- rows -----

  /** The quad reaches the shortening closure: neither end is a blank node. */
  predicate IsShortened(f: Fact) {
    f.s.Iri? && !f.o.Blank?
  }

  /** It gets a row: its object is no triple term either. */
  predicate IsNamed(f: Fact) {
    IsShortened(f) && !f.o.Triple?
  }

  function Row(bindings: seq<Binding>, f: Fact): string {
    Shortened(bindings, Rendered(f.s)) + "\t" + Shortened(bindings, Rendered(Iri(f.p))) + "\t"
    + EscapeTsv(ShortenedObject(bindings, Rendered(f.o)))
  }

  function Rows(bindings: seq<Binding>, facts: seq<Fact>): seq<string> {
    if facts == [] then []
    else Rows(bindings, facts[..|facts| - 1]) + OneRow(bindings, facts[|facts| - 1])
  }

  function OneRow(bindings: seq<Binding>, f: Fact): seq<string> {
    if IsNamed(f) then [Row(bindings, f)] else []
  }

  /** Subject and predicate are shortened before the object is looked at. */
  function FactForms(bindings: seq<Binding>, f: Fact): set<Form> {
    if !IsShortened(f) then {}
    else
      {FormOf(bindings, Rendered(f.s)), FormOf(bindings, Rendered(Iri(f.p)))}
      + (if f.o.Triple? then {} else {ObjectForm(bindings, Rendered(f.o))})
  }

  function Forms(bindings: seq<Binding>, facts: seq<Fact>): set<Form> {
    if facts == [] then {}
    else Forms(bindings, facts[..|facts| - 1]) + FactForms(bindings, facts[|facts| - 1])
  }

  /** The used prefixes, in binding order. */
  function Declared(bindings: seq<Binding>, forms: set<Form>, n: nat): seq<Binding>
    requires n <= |bindings|
  {
    if n == 0 then []
    else Declared(bindings, forms, n - 1) + (if Prefixed(n - 1) in forms then [bindings[n - 1]] else [])
  }

  function HeaderLines(bindings: seq<Binding>, forms: set<Form>): seq<string> {
    (if Relative in forms then ["@base <" + SPINE_BASE + ">"] else [])
    + PrefixLines(Declared(bindings, forms, |bindings|))
  }

  function PrefixLines(decls: seq<Binding>): seq<string> {
    if decls == [] then [] else PrefixLines(decls[..|decls| - 1]) + [PrefixLine(decls[|decls| - 1])]
  }

  function PrefixLine(b: Binding): string {
    "@prefix " + b.0 + " <" + b.1 + ">"
  }

  lemma NoPrefixes(first: seq<string>)
    ensures first + PrefixLines([]) == first
  {
  }

  lemma PrefixLinesStep(first: seq<string>, decls: seq<Binding>, b: Binding)
    ensures first + PrefixLines(decls + [b]) == first + PrefixLines(decls) + [PrefixLine(b)]
  {
    hide PrefixLine;
    assert (decls + [b])[..|decls|] == decls;
  }

  lemma DeclaredStep(bindings: seq<Binding>, forms: set<Form>, i: nat)
    requires i < |bindings|
    ensures Declared(bindings, forms, i + 1)
      == if Prefixed(i) in forms then Declared(bindings, forms, i) + [bindings[i]] else Declared(bindings, forms, i)
  {
    assert Declared(bindings, forms, i) + [] == Declared(bindings, forms, i);
  }

  /** The lines after the identity header. */
  function SpineLines(bindings: seq<Binding>, facts: seq<Fact>): seq<string> {
    HeaderLines(bindings, Forms(bindings, facts)) + ["", "?s\t?p\t?o"] + SortDedup(Rows(bindings, facts))
  }

  // ----- the program -----

  class SpineWriter {
    const bindings: seq<Binding>
    var used: seq<nat>
    var baseUsed: bool

    /** The forms used so far, as the two fields record them. */
    ghost predicate Records(forms: set<Form>)
      reads this
    {
      (forall i: nat :: Prefixed(i) in forms <==> i in used) && (Relative in forms <==> baseUsed)
      && forall i <- used :: i < |bindings|
    }

    constructor (unsorted: seq<Binding>)
      ensures bindings == LongestFirst(unsorted) && Records({})
    {
      bindings := LongestFirst(unsorted);
      used, baseUsed := [], false;
    }

    /** The shortening closure. */
    method Shorten(term: string, ghost forms: set<Form>) returns (r: string)
      requires Records(forms)
      modifies this
      ensures r == Shortened(bindings, term) && Records(forms + {FormOf(bindings, term)})
    {
      if Inner(term).None? {
        return term;
      }
      var iri := Inner(term).value;
      MatchBound(bindings, iri, 0);
      for i := 0 to |bindings|
        invariant Records(forms) && FirstMatch(bindings, iri, i) == FirstMatch(bindings, iri, 0)
      {
        if Matches(bindings[i], iri) {
          if i !in used {
            used := used + [i];
          }
          return bindings[i].0 + iri[|bindings[i].1|..];
        }
      }
      if SPINE_BASE < iri {
        baseUsed := true;
        return "<" + iri[|SPINE_BASE|..] + ">";
      }
      return term;
    }

    method ShortenObject(term: string, ghost forms: set<Form>) returns (r: string)
      requires Records(forms)
      modifies this
      ensures r == ShortenedObject(bindings, term) && Records(forms + {ObjectForm(bindings, term)})
    {
      if term != "" && term[0] == '"' {
        match DatatypeAt(term) {
          case Some(k) =>
            var dt := Shorten(term[k..], forms);
            r := term[..k] + dt;
          case None => r := term;
        }
      } else {
        r := Shorten(term, forms);
      }
    }

    /** The row loop over the store's quads. */
    method CollectRows(facts: seq<Fact>) returns (rows: seq<string>)
      requires Records({})
      modifies this
      ensures rows == Rows(bindings, facts) && Records(Forms(bindings, facts))
    {
      rows := [];
      assert facts[..0] == [];
      for k := 0 to |facts|
        invariant rows == Rows(bindings, facts[..k]) && Records(Forms(bindings, facts[..k]))
      {
        var f := facts[k];
        ghost var forms := Forms(bindings, facts[..k]);
        RowsNext(bindings, facts, k);
        if !IsShortened(f) {
          continue;
        }
        var s := Shorten(Rendered(f.s), forms);
        var p := Shorten(Rendered(Iri(f.p)), forms + {FormOf(bindings, Rendered(f.s))});
        if f.o.Triple? {
          continue;
        }
        var o := ShortenObject(Rendered(f.o), forms + {FormOf(bindings, Rendered(f.s))}
                                                + {FormOf(bindings, Rendered(Iri(f.p)))});
        rows := rows + [s + "\t" + p + "\t" + EscapeTsv(o)];
      }
      assert facts[..|facts|] == facts;
    }

    /** The base and the used prefixes. `used.sort()` lists the used bindings in order. */
    method WriteHeader(ghost forms: set<Form>) returns (lines: seq<string>)
      requires Records(forms)
      ensures lines == HeaderLines(bindings, forms)
    {
      lines := if baseUsed then ["@base <" + SPINE_BASE + ">"] else [];
      ghost var first := lines;
      NoPrefixes(first);
      for i := 0 to |bindings|
        invariant lines == first + PrefixLines(Declared(bindings, forms, i))
      {
        DeclaredStep(bindings, forms, i);
        if i in used {
          PrefixLinesStep(first, Declared(bindings, forms, i), bindings[i]);
          lines := lines + [PrefixLine(bindings[i])];
        }
      }
    }

    /** The header and the sorted, deduplicated rows. */
    method WriteSpine(facts: seq<Fact>) returns (lines: seq<string>)
      requires Records({})
      modifies this
      ensures lines == SpineLines(bindings, facts)
    {
      var rows := CollectRows(facts);
      rows := SortDedup(rows);
      lines := WriteHeader(Forms(bindings, facts));
      lines := lines + ["", "?s\t?p\t?o"] + rows;
    }
  }

  lemma RowsNext(bindings: seq<Binding>, facts: seq<Fact>, k: nat)
    requires k < |facts|
    ensures Rows(bindings, facts[..k + 1])
      == if IsNamed(facts[k]) then Rows(bindings, facts[..k]) + [Row(bindings, facts[k])]
        else Rows(bindings, facts[..k])
    ensures var f, forms := facts[k], Forms(bindings, facts[..k]);
      Forms(bindings, facts[..k + 1]) ==
        if !IsShortened(f) then forms
        else
          var ends := forms + {FormOf(bindings, Rendered(f.s))} + {FormOf(bindings, Rendered(Iri(f.p)))};
          if f.o.Triple? then ends else ends + {ObjectForm(bindings, Rendered(f.o))}
  {
    hide FormOf, ObjectForm, Row, Rendered;
    assert facts[..k + 1][..k] == facts[..k];
    assert Rows(bindings, facts[..k]) + [] == Rows(bindings, facts[..k]);
  }

  // ----- the rows are the set of facts -----

  lemma {:induction false} RowsHold(bindings: seq<Binding>, facts: seq<Fact>, row: string)
    ensures row in Rows(bindings, facts) <==> exists f <- facts :: IsNamed(f) && Row(bindings, f) == row
  {
    hide Row;
    if facts != [] {
      var init, last := facts[..|facts| - 1], facts[|facts| - 1];
      RowsHold(bindings, init, row);
      assert last in facts && forall f <- facts :: f in init || f == last;
    }
  }

  lemma {:induction false} FormsHold(bindings: seq<Binding>, facts: seq<Fact>, form: Form)
    ensures form in Forms(bindings, facts) <==> exists f <- facts :: form in FactForms(bindings, f)
  {
    hide FactForms;
    if facts != [] {
      var init, last := facts[..|facts| - 1], facts[|facts| - 1];
      FormsHold(bindings, init, form);
      assert last in facts && forall f <- facts :: f in init || f == last;
    }
  }

  /** The file depends on the set of facts alone: not on the order the store gives them in, and not on how
      often it gives one. */
  lemma SpineOfASet(bindings: seq<Binding>, a: seq<Fact>, b: seq<Fact>)
    requires forall f :: f in a <==> f in b
    ensures SpineLines(bindings, a) == SpineLines(bindings, b)
  {
    hide SortDedup, Rows, Forms, FactForms, Row, HeaderLines;
    forall row: string
      ensures row in Rows(bindings, a) <==> row in Rows(bindings, b)
    {
      RowsHold(bindings, a, row);
      RowsHold(bindings, b, row);
    }
    SortDedupCanonical(Rows(bindings, a), Rows(bindings, b));
    forall form: Form
      ensures form in Forms(bindings, a) <==> form in Forms(bindings, b)
    {
      FormsHold(bindings, a, form);
      FormsHold(bindings, b, form);
    }
    assert Forms(bindings, a) == Forms(bindings, b);
  }

  // ----- the most specific namespace wins -----

  predicate LongestFirstOrder(s: seq<Binding>) {
    forall i, j :: 0 <= i < j < |s| ==> |s[i].1| >= |s[j].1|
  }

  lemma {:induction false} InsertOrdered(b: Binding, s: seq<Binding>)
    requires LongestFirstOrder(s)
    ensures LongestFirstOrder(InsertBinding(b, s)) && multiset(InsertBinding(b, s)) == multiset(s) + multiset{b}
  {
    InsertKeeps(b, s);
    if s != [] && |b.1| < |s[0].1| {
      InsertOrdered(b, s[1..]);
      InsertKeeps(b, s[1..]);
      var t := InsertBinding(b, s[1..]);
      assert InsertBinding(b, s) == [s[0]] + t;
      hide InsertBinding;
      forall x | x in t
        ensures |s[0].1| >= |x.1|
      {
        assert x in multiset(t);
        assert x == b || x in s[1..];
      }
    }
  }

  lemma {:induction false} InsertKeeps(b: Binding, s: seq<Binding>)
    ensures multiset(InsertBinding(b, s)) == multiset(s) + multiset{b}
  {
    if s != [] && |b.1| < |s[0].1| {
      InsertKeeps(b, s[1..]);
      assert s == [s[0]] + s[1..];
    }
  }

  lemma {:induction false} LongestFirstSorts(s: seq<Binding>)
    ensures LongestFirstOrder(LongestFirst(s)) && multiset(LongestFirst(s)) == multiset(s)
  {
    if s != [] {
      LongestFirstSorts(s[1..]);
      InsertOrdered(s[0], LongestFirst(s[1..]));
      assert s == [s[0]] + s[1..];
    }
  }

  /** The IRI is the namespace and something more. */
  predicate LeavesName(namespace: string, iri: string) {
    StartsWith(iri, namespace) && iri[|namespace|..] != ""
  }

  lemma LeavesNameIff(b: Binding, iri: string)
    ensures Matches(b, iri) <==> LeavesName(b.1, iri)
  {
  }

  /** An IRI is written with the longest namespace that leaves it a local name; when none does, with none. */
  lemma LongestNamespaceWins(unsorted: seq<Binding>, iri: string)
    ensures var form := FormOf(LongestFirst(unsorted), "<" + iri + ">");
      if form.Prefixed? then
        var b := LongestFirst(unsorted)[form.i];
        b in unsorted && LeavesName(b.1, iri) && forall c <- unsorted :: LeavesName(c.1, iri) ==> |c.1| <= |b.1|
      else forall c <- unsorted :: !LeavesName(c.1, iri)
  {
    hide Matches, LeavesName, LongestFirst;
    forall c: Binding ensures Matches(c, iri) <==> LeavesName(c.1, iri) {
      LeavesNameIff(c, iri);
    }
    var bindings := LongestFirst(unsorted);
    LongestFirstSorts(unsorted);
    MatchBound(bindings, iri, 0);
    InnerOf(iri);
    forall c | c in unsorted
      ensures c in bindings
    {
      assert c in multiset(unsorted);
    }
    forall c | c in bindings
      ensures c in unsorted
    {
      assert c in multiset(bindings);
    }
  }

  lemma InnerOf(iri: string)
    ensures Inner("<" + iri + ">") == Some(iri)
  {
    assert ("<" + iri + ">")[1..|iri| + 1] == iri;
  }
}
