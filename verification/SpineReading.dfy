/** Reading the spine back from its own lines: the header gives the base and the prefixes, each row three
    columns, and each column the term it stands for. */
module SpineReading {
  import opened Wrappers
  import opened Text
  import opened Sorting
  import opened PercentCoding
  import opened Spine
  import opened IriResolution
  import NQuads

  // ----- the reader -----

  datatype Header = Header(base: Option<string>, decls: seq<Binding>)

  /** `name: <namespace>` */
  function ReadPrefix(text: string): Option<Binding> {
    if ' ' !in text then None
    else
      var k := IndexOf(text, ' ');
      match Inner(text[k + 1..]) case Some(ns) => Some((text[..k], ns)) case None => None
  }

  /** The lines up to the first empty one: comments, a base, prefixes. */
  function ReadHeader(lines: seq<string>): Option<(Header, seq<string>)> {
    if lines == [] then None
    else if lines[0] == "" then Some((Header(None, []), lines[1..]))
    else match ReadHeader(lines[1..])
      case None => None
      case Some((h, rest)) =>
        if "#" <= lines[0] then Some((h, rest))
        else if "@base " <= lines[0] then
          match Inner(lines[0][6..]) case Some(b) => Some((h.(base := Some(b)), rest)) case None => None
        else if "@prefix " <= lines[0] then
          match ReadPrefix(lines[0][8..]) case Some(d) => Some((h.(decls := [d] + h.decls), rest)) case None => None
        else None
  }

  function Lookup(decls: seq<Binding>, name: string): Option<string> {
    if decls == [] then None
    else if decls[0].0 == name then Some(decls[0].1)
    else Lookup(decls[1..], name)
  }

  /** `<absolute>`, `<relative>` read against the base, or `name:local`. */
  function ExpandIri(h: Header, token: string): Option<string> {
    match Inner(token)
    case Some(inner) =>
      if HasScheme(inner) then Some(inner)
      else if h.base.Some? && HasScheme(h.base.value) then Some(Resolved(h.base.value, inner))
      else None
    case None =>
      if ':' !in token then None
      else
        var k := IndexOf(token, ':') + 1;
        match Lookup(h.decls, token[..k]) case Some(ns) => Some(ns + token[k..]) case None => None
  }

  function ExpandObject(h: Header, token: string): Option<Term> {
    if token != "" && token[0] == '"' then
      match NQuads.ReadQuoted(token[1..])
      case None => None
      case Some((text, rest)) =>
        if "^^" <= rest then
          match ExpandIri(h, rest[2..]) case Some(iri) => Some(Typed(text, iri)) case None => None
        else Some(Literal(text, rest))
    else match ExpandIri(h, token) case Some(iri) => Some(Iri(iri)) case None => None
  }

  function ReadRow(h: Header, row: string): Option<Fact> {
    var cols := Split(row, '\t');
    if |cols| != 3 then None
    else match (ExpandIri(h, cols[0]), ExpandIri(h, cols[1]), ExpandObject(h, cols[2]))
      case (Some(s), Some(p), Some(o)) => Some(Fact(Iri(s), p, o))
      case _ => None
  }

  function ReadRows(h: Header, rows: seq<string>): Option<set<Fact>> {
    if rows == [] then Some({})
    else match (ReadRow(h, rows[0]), ReadRows(h, rows[1..]))
      case (Some(f), Some(rest)) => Some({f} + rest)
      case _ => None
  }

  /** The facts a spine file says. */
  function ReadSpine(lines: seq<string>): Option<set<Fact>> {
    match ReadHeader(lines)
    case None => None
    case Some((h, rest)) => if rest != [] && rest[0] == "?s\t?p\t?o" then ReadRows(h, rest[1..]) else None
  }

  // ----- what the store holds, and what the prefixes are like -----

  /** Names end in their only colon and begin with no bracket or quote; no name is bound twice. */
  predicate IsName(name: string) {
    |name| >= 2 && name[|name| - 1] == ':' && ':' !in name[..|name| - 1] && name[0] !in {'<', '"'} && '\t' !in name
      && ' ' !in name
  }

  predicate GoodBindings(bindings: seq<Binding>) {
    (forall b <- bindings :: IsName(b.0))
    && forall i, j :: 0 <= i < j < |bindings| ==> bindings[i].0 != bindings[j].0
  }

  /** An IRI of the store: absolute, with none of the characters the grammar forbids. */
  predicate GoodIri(iri: string) {
    AllIriSafe(iri) && HasScheme(iri)
  }

  predicate IsTag(tag: string) {
    tag == "" || (tag[0] == '@' && tag[|tag| - 1] != '>' && '"' !in tag && '\t' !in tag)
  }

  predicate GoodTerm(t: Term) {
    match t
    case Iri(iri) => GoodIri(iri)
    case Literal(_, tag) => IsTag(tag)
    case Typed(_, dt) => GoodIri(dt)
    case Blank(_) => true
    case Triple => true
  }

  predicate GoodFact(f: Fact) {
    IsNamed(f) && GoodTerm(f.s) && GoodIri(f.p) && GoodTerm(f.o)
  }

  // ----- one IRI -----

  lemma {:induction false} LookupFinds(decls: seq<Binding>, b: Binding)
    requires b in decls && forall i, j :: 0 <= i < j < |decls| ==> decls[i].0 != decls[j].0
    ensures Lookup(decls, b.0) == Some(b.1)
  {
    if decls[0] != b {
      assert b in decls[1..];
      LookupFinds(decls[1..], b);
      var j :| 0 <= j < |decls| && decls[j] == b;
    }
  }

  lemma {:induction false} DeclaredHolds(bindings: seq<Binding>, forms: set<Form>, n: nat, i: nat)
    requires n <= |bindings| && i < n && Prefixed(i) in forms
    ensures bindings[i] in Declared(bindings, forms, n)
  {
    if i < n - 1 {
      DeclaredHolds(bindings, forms, n - 1, i);
    }
  }

  lemma DeclaredFrom(bindings: seq<Binding>, forms: set<Form>, n: nat)
    requires n <= |bindings|
    ensures forall d <- Declared(bindings, forms, n) :: exists i: nat ::
      i < n && bindings[i] == d && Prefixed(i) in forms
  {
  }

  lemma {:induction false} DeclaredDistinct(bindings: seq<Binding>, forms: set<Form>, n: nat)
    requires n <= |bindings| && GoodBindings(bindings)
    ensures forall i, j :: 0 <= i < j < |Declared(bindings, forms, n)| ==>
      Declared(bindings, forms, n)[i].0 != Declared(bindings, forms, n)[j].0
  {
    hide IsName;
    if n > 0 {
      DeclaredDistinct(bindings, forms, n - 1);
      DeclaredFrom(bindings, forms, n - 1);
      forall d | d in Declared(bindings, forms, n - 1)
        ensures d.0 != bindings[n - 1].0
      {
        var i: nat :| i < n - 1 && bindings[i] == d && Prefixed(i) in forms;
      }
    }
  }

  // ----- the header -----

  function FileHeader(bindings: seq<Binding>, forms: set<Form>): Header {
    Header(if Relative in forms then Some(SPINE_BASE) else None, Declared(bindings, forms, |bindings|))
  }

  lemma Regroup5(a: string, n: string, sp: string, lt: string, m: string, gt: string)
    ensures a + n + (sp + lt) + m + gt == a + (n + (sp + (lt + m + gt)))
  {
  }

  lemma AfterFirst(a: string, b: string)
    ensures (a + b)[|a|..] == b && a <= a + b
  {
  }

  lemma PrefixTextReads(b: Binding)
    requires IsName(b.0)
    ensures ReadPrefix(b.0 + (" " + ("<" + b.1 + ">"))) == Some(b)
  {
    hide Inner;
    var text := b.0 + (" " + ("<" + b.1 + ">"));
    assert text[|b.0|] == ' ' && text[..|b.0|] == b.0;
    IndexOfUnique(text, ' ', |b.0|);
    assert text[|b.0| + 1..] == "<" + b.1 + ">";
    InnerOf(b.1);
  }

  lemma PrefixLineReads(b: Binding)
    requires IsName(b.0)
    ensures var l := PrefixLine(b);
      l != "" && !("#" <= l) && !("@base " <= l) && "@prefix " <= l && ReadPrefix(l[8..]) == Some(b)
  {
    hide ReadPrefix, IsName;
    var l, text := PrefixLine(b), b.0 + (" " + ("<" + b.1 + ">"));
    assert " " + "<" == " <";
    Regroup5("@prefix ", b.0, " ", "<", b.1, ">");
    AfterFirst("@prefix ", text);
    PrefixTextReads(b);
    assert l[0] == '@' && l[1] == 'p';
  }

  lemma {:induction false} PrefixLinesFirst(b: Binding, decls: seq<Binding>)
    ensures PrefixLines([b] + decls) == [PrefixLine(b)] + PrefixLines(decls)
  {
    hide PrefixLine;
    var all := [b] + decls;
    if decls == [] {
      assert all[..0] == [];
    } else {
      assert all[..|all| - 1] == [b] + decls[..|decls| - 1];
      PrefixLinesFirst(b, decls[..|decls| - 1]);
    }
  }

  lemma {:induction false} PrefixLinesRead(decls: seq<Binding>, rest: seq<string>)
    requires forall d <- decls :: IsName(d.0)
    ensures ReadHeader(PrefixLines(decls) + ([""] + rest)) == Some((Header(None, decls), rest))
  {
    hide IsName, PrefixLine, ReadPrefix;
    if decls == [] {
      assert PrefixLines(decls) + ([""] + rest) == [""] + rest;
    } else {
      var d, more := decls[0], decls[1..];
      assert decls == [d] + more;
      PrefixLinesFirst(d, more);
      PrefixLinesRead(more, rest);
      PrefixLineReads(d);
      var lines := PrefixLines(decls) + ([""] + rest);
      assert lines[0] == PrefixLine(d) && lines[1..] == PrefixLines(more) + ([""] + rest);
    }
  }

  lemma BaseLineReads()
    ensures var l := "@base <" + SPINE_BASE + ">";
      l != "" && !("#" <= l) && "@base " <= l && Inner(l[6..]) == Some(SPINE_BASE)
  {
    var l := "@base <" + SPINE_BASE + ">";
    assert l == "@base " + ("<" + SPINE_BASE + ">");
    assert l[6..] == "<" + SPINE_BASE + ">" && l[0] == '@';
    InnerOf(SPINE_BASE);
  }

  lemma HeaderReads(bindings: seq<Binding>, forms: set<Form>, rest: seq<string>)
    requires GoodBindings(bindings)
    ensures ReadHeader(HeaderLines(bindings, forms) + ([""] + rest)) == Some((FileHeader(bindings, forms), rest))
  {
    hide IsName, Inner, PrefixLines, SPINE_BASE;
    var decls := Declared(bindings, forms, |bindings|);
    DeclaredFrom(bindings, forms, |bindings|);
    PrefixLinesRead(decls, rest);
    BaseLineReads();
    var tail := PrefixLines(decls) + ([""] + rest);
    if Relative in forms {
      var lines := HeaderLines(bindings, forms) + ([""] + rest);
      assert lines[0] == "@base <" + SPINE_BASE + ">" && lines[1..] == tail;
    } else {
      assert HeaderLines(bindings, forms) + ([""] + rest) == tail;
    }
  }

  lemma {:induction false} CommentsSkipped(comments: seq<string>, lines: seq<string>)
    requires forall c <- comments :: "#" <= c
    ensures ReadHeader(lines).Some? ==> ReadHeader(comments + lines) == ReadHeader(lines)
  {
    if comments == [] {
      assert comments + lines == lines;
    } else {
      assert comments[0] in comments && comments[0] != "" && forall c <- comments[1..] :: c in comments;
      CommentsSkipped(comments[1..], lines);
      assert (comments + lines)[1..] == comments[1..] + lines;
    }
  }

  /** A quad that uses the form in its row. */
  predicate RowUses(bindings: seq<Binding>, f: Fact, form: Form) {
    IsNamed(f) && form in FactForms(bindings, f)
  }

  /** A quad about a triple term that has no row and uses it all the same. */
  predicate TripleUses(bindings: seq<Binding>, f: Fact, form: Form) {
    IsShortened(f) && f.o.Triple? && form in FactForms(bindings, f)
  }

  /** The header declares a prefix, or the base, exactly when some row uses it or some quad with a named
      subject and a triple term for its object does: the latter is shortened before it is skipped. */
  lemma DeclaredExactly(bindings: seq<Binding>, facts: seq<Fact>, i: nat)
    requires i < |bindings| && GoodBindings(bindings)
    ensures var h := FileHeader(bindings, Forms(bindings, facts));
      (bindings[i] in h.decls <==>
         exists f <- facts :: RowUses(bindings, f, Prefixed(i)) || TripleUses(bindings, f, Prefixed(i)))
      && (h.base.Some? <==> exists f <- facts :: RowUses(bindings, f, Relative) || TripleUses(bindings, f, Relative))
  {
    hide Forms, FactForms, IsName;
    var forms := Forms(bindings, facts);
    FormsHold(bindings, facts, Prefixed(i));
    FormsHold(bindings, facts, Relative);
    DeclaredFrom(bindings, forms, |bindings|);
    if Prefixed(i) in forms {
      DeclaredHolds(bindings, forms, |bindings|, i);
    }
    NothingUsed(bindings, facts);
  }

  lemma NothingUsed(bindings: seq<Binding>, facts: seq<Fact>)
    ensures forall f <- facts :: !IsShortened(f) ==> FactForms(bindings, f) == {}
  {
  }

  predicate UsedByRow(bindings: seq<Binding>, facts: seq<Fact>, form: Form) {
    exists f <- facts :: RowUses(bindings, f, form)
  }

  /** The header says no more than the rows need exactly when no skipped quad uses a form that no row uses. */
  lemma HeaderNeededIff(bindings: seq<Binding>, facts: seq<Fact>)
    ensures (forall form <- Forms(bindings, facts) :: UsedByRow(bindings, facts, form))
      <==> forall g, form | g in facts && TripleUses(bindings, g, form) :: UsedByRow(bindings, facts, form)
  {
    hide FactForms, Forms;
    NothingUsed(bindings, facts);
    forall form: Form
      ensures form in Forms(bindings, facts) <==> exists f <- facts :: form in FactForms(bindings, f)
    {
      FormsHold(bindings, facts, form);
    }
    forall form | form in Forms(bindings, facts) && !UsedByRow(bindings, facts, form)
      ensures exists g <- facts :: TripleUses(bindings, g, form)
    {
      var g :| g in facts && form in FactForms(bindings, g);
      assert !RowUses(bindings, g, form);
    }
  }

  /** A store whose one quad is about a triple term: no row, and a header that declares the base and the prefix. */
  lemma TripleDeclares(b: Binding, local: string, tail: string)
    requires local != "" && tail != "" && !(b.1 <= SPINE_BASE + tail)
    ensures SpineLines([b], [Fact(Iri(SPINE_BASE + tail), b.1 + local, Triple)])
      == ["@base <" + SPINE_BASE + ">", PrefixLine(b), "", "?s\t?p\t?o"]
  {
    hide PrefixLine, SPINE_BASE, FormOf;
    var f := Fact(Iri(SPINE_BASE + tail), b.1 + local, Triple);
    TripleForms(b, local, tail);
    assert [f][..0] == [];
    var forms := Forms([b], [f]);
    assert Forms([b], []) == {} && FactForms([b], f) == {Relative, Prefixed(0)};
    assert Relative in forms && Prefixed(0) in forms;
    assert Declared([b], forms, 0) == [] && Declared([b], forms, 1) == [b];
    assert PrefixLines([b]) == [PrefixLine(b)] by { assert [b][..0] == []; }
    assert Rows([b], [f]) == [] by { assert Rows([b], []) == [] && OneRow([b], f) == []; }
  }

  lemma TripleForms(b: Binding, local: string, tail: string)
    requires local != "" && tail != "" && !(b.1 <= SPINE_BASE + tail)
    ensures FormOf([b], "<" + (SPINE_BASE + tail) + ">") == Relative
      && FormOf([b], "<" + (b.1 + local) + ">") == Prefixed(0)
  {
    hide SPINE_BASE;
    var s, p := SPINE_BASE + tail, b.1 + local;
    InnerOf(s);
    InnerOf(p);
    assert SPINE_BASE < s && Matches(b, p) && !Matches(b, s);
    assert FirstMatch([b], p, 0) == Some(0);
    assert FirstMatch([b], s, 0) == FirstMatch([b], s, 1) == None;
  }

  // ----- one IRI back -----

  lemma BaseIsRoot()
    ensures IsRoot(SPINE_BASE)
  {
    hide IsRoot;
    assert SPINE_BASE == "https" + ([':'] + ("//" + ("repolex.ai" + "/")));
    SchemeAndAuthority("https", "repolex.ai");
  }

  /** The part of an IRI after the base. */
  function Tail(iri: string): string {
    if SPINE_BASE <= iri then iri[|SPINE_BASE|..] else iri
  }

  /** If the IRI is written relative to the base, what is left of it goes down from the root and nowhere else. */
  predicate PlainIri(bindings: seq<Binding>, iri: string) {
    FormOf(bindings, "<" + iri + ">").Relative? ==> IsPlainTail(Tail(iri))
  }

  ghost predicate ReadsAs(read: Option<string>, iri: string, plain: bool) {
    read.Some? && (plain ==> read.value == iri) && (!plain ==> |read.value| < |iri|)
  }

  /** The shortened form of an IRI is read, with the header that its form is declared in, as that IRI exactly
      when it is plain, and as a shorter one otherwise. */
  lemma ShortIriReadsIff(bindings: seq<Binding>, forms: set<Form>, iri: string)
    requires GoodBindings(bindings) && GoodIri(iri) && FormOf(bindings, "<" + iri + ">") in forms
    ensures var read := ExpandIri(FileHeader(bindings, forms), Shortened(bindings, "<" + iri + ">"));
      ReadsAs(read, iri, PlainIri(bindings, iri)) && (read == Some(iri) <==> PlainIri(bindings, iri))
  {
    hide IsPlainTail, HasScheme, FormOf, SPINE_BASE, Resolved;
    var term := "<" + iri + ">";
    InnerOf(iri);
    FormMatches(bindings, term);
    match FormOf(bindings, term) {
      case Prefixed(i) =>
        DeclaredHolds(bindings, forms, |bindings|, i);
        PrefixedReads(bindings, forms, i, iri);
      case Relative =>
        RelativeTail(bindings, iri);
        RelativeReads(FileHeader(bindings, forms), iri);
      case AsIs =>
    }
  }

  lemma RelativeTail(bindings: seq<Binding>, iri: string)
    requires FormOf(bindings, "<" + iri + ">").Relative?
    ensures SPINE_BASE < iri
  {
    hide SPINE_BASE;
    InnerOf(iri);
  }

  lemma RelativeReads(h: Header, iri: string)
    requires SPINE_BASE < iri && h.base == Some(SPINE_BASE)
    ensures ReadsAs(ExpandIri(h, "<" + iri[|SPINE_BASE|..] + ">"), iri, IsPlainTail(iri[|SPINE_BASE|..]))
  {
    hide SPINE_BASE, Resolved, HasScheme, NoDots;
    var tail := iri[|SPINE_BASE|..];
    InnerOf(tail);
    BaseIsRoot();
    assert |SPINE_BASE| > 0;
    assert SPINE_BASE + tail == iri;
    if !HasScheme(tail) {
      ResolvedUnderRoot(SPINE_BASE, tail);
    }
  }

  lemma PrefixedReads(bindings: seq<Binding>, forms: set<Form>, i: nat, iri: string)
    requires GoodBindings(bindings) && i < |bindings| && Matches(bindings[i], iri)
    requires bindings[i] in Declared(bindings, forms, |bindings|)
    ensures ExpandIri(FileHeader(bindings, forms), bindings[i].0 + iri[|bindings[i].1|..]) == Some(iri)
  {
    hide HasScheme, Declared;
    var (name, ns) := bindings[i];
    var token := name + iri[|ns|..];
    assert IsName(name) by { assert bindings[i] in bindings; }
    assert token[|name| - 1] == ':' && token[..|name| - 1] == name[..|name| - 1] && token[0] == name[0];
    IndexOfUnique(token, ':', |name| - 1);
    assert token[..|name|] == name && token[|name|..] == iri[|ns|..];
    DeclaredDistinct(bindings, forms, |bindings|);
    LookupFinds(Declared(bindings, forms, |bindings|), bindings[i]);
    assert ns + iri[|ns|..] == iri;
  }

  // ----- literals -----

  function TabbedChar(c: char): string {
    if c == '\t' then "\\t" else NQuads.EscapedChar(c)
  }

  function Tabbed(s: string): string {
    if s == "" then "" else TabbedChar(s[0]) + Tabbed(s[1..])
  }

  lemma EscapeTsvConcat(a: string, b: string)
    ensures EscapeTsv(a + b) == EscapeTsv(a) + EscapeTsv(b)
  {
    NQuads.ReplaceConcat(a, b, '\t', "\\t");
  }

  lemma EscapeTsvPlain(s: string)
    requires '\t' !in s
    ensures EscapeTsv(s) == s
  {
    NQuads.ReplaceAbsent(s, '\t', "\\t");
  }

  lemma EscapedIsTabbed(s: string)
    ensures EscapeTsv(NQuads.NqEscape(s)) == Tabbed(s)
  {
    NQuads.NqEscapeIsOnePass(s);
    OnePassTabbed(s);
  }

  lemma {:induction false} OnePassTabbed(s: string)
    ensures EscapeTsv(NQuads.OnePass(s)) == Tabbed(s)
  {
    hide EscapeTsv;
    if s == "" {
      EscapeTsvPlain("");
    } else {
      OnePassTabbed(s[1..]);
      EscapeTsvConcat(NQuads.EscapedChar(s[0]), NQuads.OnePass(s[1..]));
      if s[0] == '\t' {
        TabAlone();
      } else {
        EscapeTsvPlain(NQuads.EscapedChar(s[0]));
      }
    }
  }

  lemma TabAlone()
    ensures EscapeTsv("\t") == "\\t" && NQuads.EscapedChar('\t') == "\t"
  {
    NQuads.ReplaceOne('\t', '\t', "\\t");
  }

  lemma {:induction false} TabbedReads(s: string, rest: string)
    ensures NQuads.ReadQuoted(Tabbed(s) + "\"" + rest) == Some((s, rest))
  {
    hide NQuads.ReadQuoted;
    if s == "" {
      assert Tabbed(s) + "\"" + rest == "\"" + rest;
      QuoteEnds(rest);
    } else {
      var tail := Tabbed(s[1..]) + "\"" + rest;
      TabbedReads(s[1..], rest);
      assert Tabbed(s) + "\"" + rest == TabbedChar(s[0]) + tail;
      TabbedCharReads(s[0], tail);
      assert [s[0]] + s[1..] == s;
    }
  }

  lemma QuoteEnds(rest: string)
    ensures NQuads.ReadQuoted("\"" + rest) == Some(("", rest))
  {
    assert ("\"" + rest)[1..] == rest;
  }

  lemma TabbedCharReads(c: char, tail: string)
    requires NQuads.ReadQuoted(tail).Some?
    ensures NQuads.ReadQuoted(TabbedChar(c) + tail)
      == Some(([c] + NQuads.ReadQuoted(tail).value.0, NQuads.ReadQuoted(tail).value.1))
  {
    if c == '\t' {
      var s := "\\t" + tail;
      assert s[2..] == tail;
    } else {
      NQuads.ReadEscapedChar(c, tail);
    }
  }

  // ----- finding the datatype -----

  lemma {:induction false} FindLastIs(s: string, sub: string, upTo: nat, i: nat)
    requires i <= upTo && OccursAt(s, sub, i) && forall j: nat :: i < j <= upTo ==> !OccursAt(s, sub, j)
    ensures FindLast(s, sub, upTo) == Some(i)
    decreases upTo
  {
    hide OccursAt;
    if upTo > i {
      FindLastIs(s, sub, upTo - 1, i);
    }
  }

  /** The last mark of a typed literal is the real one: nothing after it can hold a quote. */
  lemma TypedMark(text: string, dt: string)
    requires AllIriSafe(dt)
    ensures var lex := "\"" + NQuads.NqEscape(text) + "\"^^";
      DatatypeAt(Rendered(Typed(text, dt))) == Some(|lex|)
      && Rendered(Typed(text, dt)) == lex + ("<" + dt + ">")
  {
    hide NQuads.NqEscape, AllIriSafe;
    var head := "\"" + NQuads.NqEscape(text);
    var tail := dt + ">";
    var term := Rendered(Typed(text, dt));
    assert term == head + (TYPE_MARK + tail);
    assert OccursAt(term, TYPE_MARK, |head|);
    NoQuote(dt);
    MarkIsLast(head, tail);
    FindLastIs(term, TYPE_MARK, |term|, |head|);
    assert term[0] == '"';
  }

  lemma NoQuote(dt: string)
    requires AllIriSafe(dt)
    ensures '"' !in dt + ">"
  {
  }

  lemma MarkIsLast(head: string, tail: string)
    requires '"' !in tail
    ensures forall j: nat :: |head| < j ==> !OccursAt(head + (TYPE_MARK + tail), TYPE_MARK, j)
  {
    var s := head + (TYPE_MARK + tail);
    assert forall k ::
      1 <= k < |TYPE_MARK + tail| ==> (TYPE_MARK + tail)[k] == (if k < 4 then TYPE_MARK[k] else tail[k - 4]);
    assert forall j :: |head| < j < |s| ==> s[j] == (TYPE_MARK + tail)[j - |head|];
    forall j: nat | |head| < j
      ensures !OccursAt(s, TYPE_MARK, j)
    {
      MarkChar(s, j);
    }
  }

  lemma MarkChar(s: string, j: nat)
    ensures OccursAt(s, TYPE_MARK, j) ==> j < |s| && s[j] == '"'
  {
    assert j + 4 <= |s| ==> s[j..j + 4][0] == s[j];
  }

  /** A plain literal is never taken for a typed one in a way that changes it, whatever its text holds. */
  lemma LiteralUntouched(bindings: seq<Binding>, text: string, tag: string)
    requires IsTag(tag)
    ensures var term := Rendered(Literal(text, tag));
      ShortenedObject(bindings, term) == term && ObjectForm(bindings, term) == AsIs
  {
    hide NQuads.NqEscape;
    var term := Rendered(Literal(text, tag));
    assert term[|term| - 1] == if tag == "" then '"' else tag[|tag| - 1];
    match DatatypeAt(term) {
      case Some(k) =>
        NoInner(term, k);
        assert term[..k] + term[k..] == term;
      case None =>
    }
  }

  lemma NoInner(term: string, k: nat)
    requires k <= |term| && term != "" && term[|term| - 1] != '>'
    ensures Inner(term[k..]).None?
  {
    assert k < |term| ==> term[k..][|term| - k - 1] == term[|term| - 1];
  }

  // ----- one row -----

  predicate PlainTerm(bindings: seq<Binding>, t: Term) {
    match t
    case Iri(iri) => PlainIri(bindings, iri)
    case Typed(_, dt) => PlainIri(bindings, dt)
    case _ => true
  }

  predicate PlainFact(bindings: seq<Binding>, f: Fact) {
    PlainTerm(bindings, f.s) && PlainIri(bindings, f.p) && PlainTerm(bindings, f.o)
  }

  lemma ShortShape(bindings: seq<Binding>, iri: string)
    requires GoodBindings(bindings) && GoodIri(iri)
    ensures var token := Shortened(bindings, "<" + iri + ">"); '\t' !in token && token != "" && token[0] != '"'
  {
    hide SPINE_BASE, HasScheme, FormOf;
    var term := "<" + iri + ">";
    InnerOf(iri);
    FormMatches(bindings, term);
    NoTabInIri(iri);
    match FormOf(bindings, term) {
      case Prefixed(i) =>
        assert IsName(bindings[i].0) by { assert bindings[i] in bindings; }
      case Relative => RelativeTail(bindings, iri);
      case AsIs =>
    }
  }

  lemma NoTabInIri(iri: string)
    requires AllIriSafe(iri)
    ensures '\t' !in iri
  {
  }

  lemma {:induction false} EscapedHasNoTab(s: string)
    ensures '\t' !in EscapeTsv(s)
  {
    if s != "" {
      EscapedHasNoTab(s[1..]);
    }
  }

  /** A row has exactly two tabs: it is its three terms. */
  lemma RowColumns(bindings: seq<Binding>, f: Fact)
    requires GoodBindings(bindings) && GoodFact(f)
    ensures Split(Row(bindings, f), '\t')
      == [Shortened(bindings, Rendered(f.s)), Shortened(bindings, Rendered(Iri(f.p))),
          EscapeTsv(ShortenedObject(bindings, Rendered(f.o)))]
  {
    hide Shortened, ShortenedObject, EscapeTsv, GoodBindings, HasScheme;
    ShortShape(bindings, f.s.iri);
    ShortShape(bindings, f.p);
    var s, p, o := Shortened(bindings, Rendered(f.s)), Shortened(bindings, Rendered(Iri(f.p))),
                   EscapeTsv(ShortenedObject(bindings, Rendered(f.o)));
    EscapedHasNoTab(ShortenedObject(bindings, Rendered(f.o)));
    assert Row(bindings, f) == s + ['\t'] + (p + ['\t'] + o);
    SplitFirst(s, '\t', p + ['\t'] + o);
    SplitFirst(p, '\t', o);
  }

  /** How much IRI a term or fact holds. */
  function Weight(t: Term): nat {
    match t case Iri(iri) => |iri| case Typed(_, dt) => |dt| case _ => 0
  }

  function FactWeight(f: Fact): nat {
    Weight(f.s) + |f.p| + Weight(f.o)
  }

  ghost predicate TermReadsAs(read: Option<Term>, o: Term, plain: bool) {
    read.Some? && (plain ==> read.value == o) && (!plain ==> Weight(read.value) < Weight(o))
  }

  lemma ObjectReads(bindings: seq<Binding>, forms: set<Form>, o: Term)
    requires GoodBindings(bindings) && GoodTerm(o) && !o.Blank? && !o.Triple?
    requires ObjectForm(bindings, Rendered(o)) in forms
    ensures TermReadsAs(ExpandObject(FileHeader(bindings, forms), EscapeTsv(ShortenedObject(bindings, Rendered(o)))), o,
                        PlainTerm(bindings, o))
  {
    hide ExpandIri, Shortened, ShortenedObject, EscapeTsv, FileHeader, GoodBindings, HasScheme, FormOf, ObjectForm;
    hide PlainIri;
    hide NQuads.ReadQuoted, NQuads.NqEscape, Tabbed;
    match o {
      case Iri(iri) =>
        IriObject(bindings, iri);
        ShortShape(bindings, iri);
        EscapeTsvPlain(Shortened(bindings, Rendered(o)));
        ShortIriReadsIff(bindings, forms, iri);
      case Literal(text, tag) =>
        LiteralUntouched(bindings, text, tag);
        LiteralEscaped(text, tag);
        var token := "\"" + (Tabbed(text) + "\"" + tag);
        TabbedReads(text, tag);
        assert token[1..] == Tabbed(text) + "\"" + tag;
      case Typed(text, dt) => TypedReads(bindings, forms, text, dt);
    }
  }

  lemma TypedReads(bindings: seq<Binding>, forms: set<Form>, text: string, dt: string)
    requires GoodBindings(bindings) && GoodIri(dt) && ObjectForm(bindings, Rendered(Typed(text, dt))) in forms
    ensures var h := FileHeader(bindings, forms);
      TermReadsAs(ExpandObject(h, EscapeTsv(ShortenedObject(bindings, Rendered(Typed(text, dt))))),
                        Typed(text, dt), PlainIri(bindings, dt))
  {
    hide ExpandIri, Shortened, ShortenedObject, EscapeTsv, FileHeader, GoodBindings, HasScheme, FormOf, ObjectForm;
    hide PlainIri;
    hide NQuads.ReadQuoted, NQuads.NqEscape, Tabbed;
    var short := Shortened(bindings, "<" + dt + ">");
    TypedObject(bindings, text, dt);
    ShortShape(bindings, dt);
    LiteralEscaped(text, "^^" + short);
    var rest := "^^" + short;
    var token := "\"" + (Tabbed(text) + "\"" + rest);
    TabbedReads(text, rest);
    assert token[1..] == Tabbed(text) + "\"" + rest;
    assert "^^" <= rest && rest[2..] == short;
    ShortIriReadsIff(bindings, forms, dt);
  }

  lemma IriObject(bindings: seq<Binding>, iri: string)
    ensures var term := Rendered(Iri(iri));
      ShortenedObject(bindings, term) == Shortened(bindings, term)
        && ObjectForm(bindings, term) == FormOf(bindings, term)
  {
    assert Rendered(Iri(iri))[0] == '<';
  }

  lemma TypedObject(bindings: seq<Binding>, text: string, dt: string)
    requires AllIriSafe(dt)
    ensures var term := Rendered(Typed(text, dt));
      ShortenedObject(bindings, term)
        == "\"" + NQuads.NqEscape(text) + "\"" + ("^^" + Shortened(bindings, "<" + dt + ">"))
      && ObjectForm(bindings, term) == FormOf(bindings, "<" + dt + ">")
  {
    hide Shortened, FormOf, NQuads.NqEscape, DatatypeAt;
    TypedMark(text, dt);
    var lex := "\"" + NQuads.NqEscape(text) + "\"^^";
    var term := Rendered(Typed(text, dt));
    assert term[..|lex|] == lex && term[|lex|..] == "<" + dt + ">" && term[0] == '"';
    var short := Shortened(bindings, "<" + dt + ">");
    assert lex + short == "\"" + NQuads.NqEscape(text) + "\"" + ("^^" + short);
  }

  lemma LiteralEscaped(text: string, rest: string)
    requires '\t' !in rest
    ensures EscapeTsv("\"" + NQuads.NqEscape(text) + "\"" + rest) == "\"" + (Tabbed(text) + "\"" + rest)
  {
    hide EscapeTsv, NQuads.NqEscape;
    var e := NQuads.NqEscape(text);
    EscapeTsvConcat("\"" + e + "\"", rest);
    EscapeTsvConcat("\"" + e, "\"");
    EscapeTsvConcat("\"", e);
    EscapeTsvPlain("\"");
    EscapeTsvPlain(rest);
    EscapedIsTabbed(text);
    assert "\"" + Tabbed(text) + "\"" + rest == "\"" + (Tabbed(text) + "\"" + rest);
  }

  lemma FormsInclude(bindings: seq<Binding>, facts: seq<Fact>, f: Fact)
    requires f in facts
    ensures FactForms(bindings, f) <= Forms(bindings, facts)
  {
    hide FactForms, Forms;
    forall form | form in FactForms(bindings, f)
      ensures form in Forms(bindings, facts)
    {
      FormsHold(bindings, facts, form);
    }
  }

  ghost predicate RowReadsAs(read: Option<Fact>, f: Fact, plain: bool) {
    read.Some? && (plain ==> read.value == f) && (!plain ==> FactWeight(read.value) < FactWeight(f))
  }

  /** The row of a fact is read, with the file's own header, as that fact exactly when the fact is plain, and
      otherwise as one with shorter IRIs. */
  lemma RowReadsBack(bindings: seq<Binding>, facts: seq<Fact>, f: Fact)
    requires GoodBindings(bindings) && f in facts && GoodFact(f)
    ensures var read := ReadRow(FileHeader(bindings, Forms(bindings, facts)), Row(bindings, f));
      RowReadsAs(read, f, PlainFact(bindings, f)) && (read == Some(f) <==> PlainFact(bindings, f))
  {
    hide ExpandIri, ExpandObject, Shortened, ShortenedObject, EscapeTsv, FileHeader, Forms, GoodBindings, HasScheme;
    hide FormOf;
    hide ObjectForm, PlainIri, Row, Split;
    var forms := Forms(bindings, facts);
    FormsInclude(bindings, facts, f);
    RowColumns(bindings, f);
    ShortIriReadsIff(bindings, forms, f.s.iri);
    ShortIriReadsIff(bindings, forms, f.p);
    ObjectReads(bindings, forms, f.o);
  }

  /** Two plain facts never share a row, so the deduplication drops only facts that the store holds twice. */
  lemma RowsTellFactsApart(bindings: seq<Binding>, a: Fact, b: Fact)
    requires GoodBindings(bindings) && GoodFact(a) && GoodFact(b) && PlainFact(bindings, a) && PlainFact(bindings, b)
    requires Row(bindings, a) == Row(bindings, b)
    ensures a == b
  {
    hide Row, ReadRow, Forms, FileHeader, PlainFact, GoodFact, GoodBindings;
    RowReadsBack(bindings, [a, b], a);
    RowReadsBack(bindings, [a, b], b);
  }

  /** Without plainness they can: an IRI and the same text under the base are written alike, and read as the former. */
  lemma AbsoluteUnderBase(u: string)
    requires HasScheme(u) && !(SPINE_BASE < u)
    ensures Shortened([], "<" + (SPINE_BASE + u) + ">") == "<" + u + ">" == Shortened([], "<" + u + ">")
    ensures !PlainIri([], SPINE_BASE + u) && PlainIri([], u)
  {
    hide SPINE_BASE, HasScheme;
    InnerOf(SPINE_BASE + u);
    InnerOf(u);
    assert u != "" by { assert HasScheme(u) ==> u != "" by { NoSchemeInEmpty(); } }
    assert SPINE_BASE < SPINE_BASE + u && (SPINE_BASE + u)[|SPINE_BASE|..] == u;
  }

  lemma NoSchemeInEmpty()
    ensures !HasScheme("")
  {
  }

  // ----- the whole file -----

  function NamedFacts(facts: seq<Fact>): set<Fact> {
    set f | f in facts && IsNamed(f)
  }

  lemma {:induction false} RowsRead(h: Header, rows: seq<string>)
    requires forall row <- rows :: ReadRow(h, row).Some?
    ensures ReadRows(h, rows).Some?
    ensures forall g :: g in ReadRows(h, rows).value <==> exists row <- rows :: ReadRow(h, row) == Some(g)
  {
    hide ReadRow;
    if rows != [] {
      RowsRead(h, rows[1..]);
      assert rows == [rows[0]] + rows[1..];
    }
  }

  /** What the file says: one fact for each named one, read from its row. */
  lemma FileSays(bindings: seq<Binding>, facts: seq<Fact>, comments: seq<string>)
    requires GoodBindings(bindings) && (forall f <- facts :: IsNamed(f) ==> GoodFact(f))
    requires forall c <- comments :: "#" <= c
    ensures var h := FileHeader(bindings, Forms(bindings, facts));
      var read := ReadSpine(comments + SpineLines(bindings, facts));
      read.Some?
      && forall g :: g in read.value <==> exists f <- NamedFacts(facts) :: ReadRow(h, Row(bindings, f)) == Some(g)
  {
    hide ReadRow, Row, Forms, HeaderLines, FileHeader, GoodBindings, GoodFact, PlainFact, Rows, IsNamed;
    var forms := Forms(bindings, facts);
    var h, rows := FileHeader(bindings, forms), SortDedup(Rows(bindings, facts));
    HeaderReads(bindings, forms, ["?s\t?p\t?o"] + rows);
    assert HeaderLines(bindings, forms) + ([""] + (["?s\t?p\t?o"] + rows)) == SpineLines(bindings, facts);
    CommentsSkipped(comments, SpineLines(bindings, facts));
    assert (["?s\t?p\t?o"] + rows)[1..] == rows;
    SortDedupSorted(Rows(bindings, facts));
    forall row: string
      ensures row in rows <==> exists f <- NamedFacts(facts) :: Row(bindings, f) == row
    {
      RowsHold(bindings, facts, row);
    }
    forall row | row in rows
      ensures ReadRow(h, row).Some?
    {
      var f :| f in NamedFacts(facts) && Row(bindings, f) == row;
      RowReadsBack(bindings, facts, f);
    }
    RowsRead(h, rows);
  }

  function MaxWeight(facts: seq<Fact>): (m: nat)
    ensures forall f <- facts :: FactWeight(f) <= m
  {
    if facts == [] then 0
    else if FactWeight(facts[0]) > MaxWeight(facts[1..]) then FactWeight(facts[0]) else MaxWeight(facts[1..])
  }

  /** A fact that is not plain cannot be missing from no set: were it read from some row, that row would be a
      heavier fact's that is not plain either, and so on without end. */
  lemma {:induction false} NotPlainIsLost(bindings: seq<Binding>, facts: seq<Fact>, f: Fact)
    requires GoodBindings(bindings) && (forall g <- facts :: IsNamed(g) ==> GoodFact(g))
    requires f in NamedFacts(facts) && !PlainFact(bindings, f)
    requires var h := FileHeader(bindings, Forms(bindings, facts));
      forall g <- NamedFacts(facts) :: exists f <- NamedFacts(facts) :: ReadRow(h, Row(bindings, f)) == Some(g)
    ensures false
    decreases MaxWeight(facts) - FactWeight(f)
  {
    hide ReadRow, Row, Forms, FileHeader, GoodBindings, GoodFact, PlainFact, IsNamed;
    var h := FileHeader(bindings, Forms(bindings, facts));
    var g :| g in NamedFacts(facts) && ReadRow(h, Row(bindings, g)) == Some(f);
    RowReadsBack(bindings, facts, g);
    NotPlainIsLost(bindings, facts, g);
  }

  /** The file, read with nothing but its own lines, says exactly the named facts of the store -- exactly when
      every one of them is plain. */
  lemma FileReadsBackIff(bindings: seq<Binding>, facts: seq<Fact>, comments: seq<string>)
    requires GoodBindings(bindings) && (forall f <- facts :: IsNamed(f) ==> GoodFact(f))
    requires forall c <- comments :: "#" <= c
    ensures ReadSpine(comments + SpineLines(bindings, facts)) == Some(NamedFacts(facts))
      <==> forall f <- NamedFacts(facts) :: PlainFact(bindings, f)
  {
    hide ReadRow, Row, Forms, FileHeader, GoodBindings, GoodFact, PlainFact, IsNamed, ReadSpine, SpineLines;
    var h, read := FileHeader(bindings, Forms(bindings, facts)), ReadSpine(comments + SpineLines(bindings, facts));
    FileSays(bindings, facts, comments);
    forall f | f in NamedFacts(facts)
      ensures ReadRow(h, Row(bindings, f)) == Some(f) <==> PlainFact(bindings, f)
    {
      RowReadsBack(bindings, facts, f);
    }
    if forall f <- NamedFacts(facts) :: PlainFact(bindings, f) {
      assert read.value == NamedFacts(facts);
    } else if read == Some(NamedFacts(facts)) {
      var f :| f in NamedFacts(facts) && !PlainFact(bindings, f);
      NotPlainIsLost(bindings, facts, f);
    }
  }
}
