/** The two writers of ObjectProperty values: sync's N-Quads (`emit_reference_values`, src/nquad.rs)
    and validation's Turtle (the value loop of `frontmatter_to_turtle` and `write_reference_turtle`,
    src/extraction.rs). Validation must judge exactly what sync will emit. */
module ReferenceWriters {
  import opened Wrappers
  import opened Text
  import opened References
  import opened Resolve
  import NQuads

  // ----- sync -----

  /** What one value adds: a statement's object, or an error. */
  function NqObject(val: string, range: Option<string>, b: Base): Option<NQuads.Term> {
    if range == Some(THING_CLASS_IRI) then
      match ThingReference(val) case Some(iri) => Some(NQuads.Iri(iri)) case None => None
    else if range.Some? then
      match ThingIriFromRange(range.value, val) case Some(iri) => Some(NQuads.Iri(iri)) case None => None
    else
      match FrontmatterValue(val, b)
      case Iri(iri) => Some(NQuads.Iri(iri))
      case Unresolved(literal) => Some(NQuads.Plain(literal))
      case Rejected => None
  }

  datatype Place = Place(subject: string, pred: string, graph: string)

  function NqLine(at: Place, o: NQuads.Term): string {
    NQuads.Render(NQuads.Quad(at.subject, at.pred, o, at.graph)) + "\n"
  }

  function NqText(vals: seq<string>, range: Option<string>, b: Base, at: Place): string {
    if vals == [] then ""
    else
      NqText(vals[..|vals| - 1], range, b, at)
      + (match NqObject(vals[|vals| - 1], range, b) case Some(o) => NqLine(at, o) case None => "")
  }

  function NqErrors(vals: seq<string>, range: Option<string>, b: Base): nat {
    if vals == [] then 0
    else NqErrors(vals[..|vals| - 1], range, b) + (if NqObject(vals[|vals| - 1], range, b).None? then 1 else 0)
  }

  /** `emit_reference_values`: every value is tried, errors are counted. */
  method EmitReferenceValues(value: string, range: Option<string>, b: Base,
                             at: Place) returns (errors: nat, out: string)
    ensures errors == NqErrors(ObjectValues(value), range, b)
    ensures out == NqText(ObjectValues(value), range, b, at)
  {
    errors, out := 0, "";
    var values := SplitObjectValues(value);
    ObjectValuesTrimmed(value);
    assert values[..0] == [];
    for i := 0 to |values|
      invariant errors == NqErrors(values[..i], range, b)
      invariant out == NqText(values[..i], range, b, at)
    {
      NqNext(values, i, range, b, at);
      assert values[i] in values;
      if values[i] == "" {
        continue;
      }
      match NqObject(values[i], range, b) {
        case Some(o) => out := out + NqLine(at, o);
        case None => errors := errors + 1;
      }
    }
    assert values[..|values|] == values;
  }

  lemma NqNext(vals: seq<string>, i: nat, range: Option<string>, b: Base, at: Place)
    requires i < |vals|
    ensures NqText(vals[..i + 1], range, b, at)
      == NqText(vals[..i], range, b, at)
        + (match NqObject(vals[i], range, b) case Some(o) => NqLine(at, o) case None => "")
    ensures NqErrors(vals[..i + 1], range, b)
      == NqErrors(vals[..i], range, b) + (if NqObject(vals[i], range, b).None? then 1 else 0)
    ensures NqText(vals[..i], range, b, at) + "" == NqText(vals[..i], range, b, at)
  {
    hide NqObject, NqLine;
    assert vals[..i + 1][..i] == vals[..i];
  }

  // ----- validation -----

  /** `write_reference_turtle`: a line, or the refusal of the whole document. */
  function TurtleLine(val: string, range: Option<string>, b: Base, doc: string, pred: string): Option<string> {
    var head := "<" + doc + "> " + pred + " ";
    if range == Some(THING_CLASS_IRI) then
      match ThingReference(val) case Some(iri) => Some(head + "<" + iri + "> .\n") case None => None
    else if range.Some? then
      match ThingIriFromRange(range.value, val) case Some(iri) => Some(head + "<" + iri + "> .\n") case None => None
    else
      match FrontmatterValue(val, b)
      case Iri(iri) => Some(head + "<" + iri + "> .\n")
      case Unresolved(literal) => Some(head + "\"" + NQuads.TurtleEscape(literal) + "\" .\n")
      case Rejected => None
  }

  function TurtleText(vals: seq<string>, range: Option<string>, b: Base, doc: string, pred: string): Option<string> {
    if vals == [] then Some("")
    else match TurtleText(vals[..|vals| - 1], range, b, doc, pred)
      case None => None
      case Some(text) =>
        match TurtleLine(vals[|vals| - 1], range, b, doc, pred)
        case Some(line) => Some(text + line)
        case None => None
  }

  lemma {:induction false} TurtleTextStops(vals: seq<string>, i: nat, range: Option<string>, b: Base, doc: string,
                                           pred: string)
    requires i <= |vals| && TurtleText(vals[..i], range, b, doc, pred).None?
    ensures TurtleText(vals, range, b, doc, pred).None?
    decreases |vals| - i
  {
    if i < |vals| {
      assert vals[..i + 1][..i] == vals[..i];
      TurtleTextStops(vals, i + 1, range, b, doc, pred);
    } else {
      assert vals[..i] == vals;
    }
  }

  lemma TurtleTextNext(vals: seq<string>, i: nat, range: Option<string>, b: Base, doc: string, pred: string)
    requires i < |vals|
    ensures TurtleText(vals[..i + 1], range, b, doc, pred) ==
      match (TurtleText(vals[..i], range, b, doc, pred), TurtleLine(vals[i], range, b, doc, pred))
      case (Some(text), Some(line)) => Some(text + line)
      case _ => None
  {
    hide TurtleLine;
    assert vals[..i + 1][..i] == vals[..i];
  }

  /** The value loop of `frontmatter_to_turtle`: the first refused value ends it. */
  method WriteReferences(value: string, range: Option<string>, b: Base, doc: string, pred: string)
    returns (ttl: Option<string>)
    ensures ttl == TurtleText(ObjectValues(value), range, b, doc, pred)
  {
    var values := SplitObjectValues(value);
    var text := "";
    assert values[..0] == [];
    for i := 0 to |values|
      invariant TurtleText(values[..i], range, b, doc, pred) == Some(text)
    {
      TurtleTextNext(values, i, range, b, doc, pred);
      var line := TurtleLine(values[i], range, b, doc, pred);
      if line.None? {
        TurtleTextStops(values, i + 1, range, b, doc, pred);
        return None;
      }
      text := text + line.value;
    }
    assert values[..|values|] == values;
    return Some(text);
  }

  // ----- agreement -----

  /** The IRIs a list of values stands for, when every value stands for one. */
  function TargetIris(vals: seq<string>, range: Option<string>, b: Base): Option<seq<string>> {
    if vals == [] then Some([])
    else match (TargetIris(vals[..|vals| - 1], range, b), NqObject(vals[|vals| - 1], range, b))
      case (Some(iris), Some(Iri(iri))) => Some(iris + [iri])
      case _ => None
  }

  function NqLines(iris: seq<string>, at: Place): string {
    if iris == [] then "" else NqLines(iris[..|iris| - 1], at) + NqLine(at, NQuads.Iri(iris[|iris| - 1]))
  }

  function TurtleLines(iris: seq<string>, doc: string, pred: string): string {
    if iris == [] then ""
    else TurtleLines(iris[..|iris| - 1], doc, pred) + ("<" + doc + "> " + pred + " <" + iris[|iris| - 1] + "> .\n")
  }

  /** After the splitter no value is blank, so the literal lane is never taken. */
  lemma NeverUnresolved(val: string, b: Base)
    requires val != "" && Trim(val) == val
    ensures !FrontmatterValue(val, b).Unresolved?
  {
  }

  lemma OneValueAgrees(val: string, range: Option<string>, b: Base, doc: string, pred: string)
    requires val != "" && Trim(val) == val
    ensures NqObject(val, range, b).Some? <==> TurtleLine(val, range, b, doc, pred).Some?
    ensures NqObject(val, range, b).Some? ==>
      NqObject(val, range, b).value.Iri?
      && TurtleLine(val, range, b, doc, pred)
         == Some("<" + doc + "> " + pred + " <" + NqObject(val, range, b).value.iri + "> .\n")
  {
    hide FrontmatterValue, ThingReference, ThingIriFromRange;
    NeverUnresolved(val, b);
    if NqObject(val, range, b).Some? {
      var iri := NqObject(val, range, b).value.iri;
      assert "<" + doc + "> " + pred + " " + "<" + iri + "> .\n" == "<" + doc + "> " + pred + " <" + iri + "> .\n";
    }
  }

  lemma {:induction false} ValuesAgree(vals: seq<string>, range: Option<string>, b: Base, at: Place, doc: string,
                                       pred: string)
    requires forall v <- vals :: v != "" && Trim(v) == v
    ensures NqErrors(vals, range, b) == 0 <==> TargetIris(vals, range, b).Some?
    ensures TurtleText(vals, range, b, doc, pred).Some? <==> TargetIris(vals, range, b).Some?
    ensures TargetIris(vals, range, b).Some? ==>
      NqText(vals, range, b, at) == NqLines(TargetIris(vals, range, b).value, at)
      && TurtleText(vals, range, b, doc, pred).value == TurtleLines(TargetIris(vals, range, b).value, doc, pred)
  {
    hide NqObject, TurtleLine, NqLine;
    if vals != [] {
      var init, last := vals[..|vals| - 1], vals[|vals| - 1];
      assert last in vals && forall v <- init :: v in vals;
      ValuesAgree(init, range, b, at, doc, pred);
      OneValueAgrees(last, range, b, doc, pred);
      if TargetIris(vals, range, b).Some? {
        var iris := TargetIris(vals, range, b).value;
        assert iris[..|iris| - 1] == TargetIris(init, range, b).value;
      }
    }
  }

  /** Both writers put out lines for exactly these targets. */
  ghost predicate WriteTargets(iris: seq<string>, vals: seq<string>, range: Option<string>, b: Base, at: Place,
                               doc: string, pred: string) {
    |iris| == |vals| && NqText(vals, range, b, at) == NqLines(iris, at)
    && TurtleText(vals, range, b, doc, pred) == Some(TurtleLines(iris, doc, pred))
  }

  /** For every authored value and every declared range, validation accepts the value exactly when sync
      reports no error for it, and then both write the same sequence of target IRIs, one a value. */
  lemma WritersAgree(value: string, range: Option<string>, b: Base, at: Place, doc: string, pred: string)
    ensures var vals := ObjectValues(value);
      (TurtleText(vals, range, b, doc, pred).Some? <==> NqErrors(vals, range, b) == 0)
      && (NqErrors(vals, range, b) == 0 ==> exists iris :: WriteTargets(iris, vals, range, b, at, doc, pred))
  {
    hide ObjectValues;
    var vals := ObjectValues(value);
    ObjectValuesTrimmed(value);
    ValuesAgree(vals, range, b, at, doc, pred);
    if NqErrors(vals, range, b) == 0 {
      TargetCount(vals, range, b);
      assert WriteTargets(TargetIris(vals, range, b).value, vals, range, b, at, doc, pred);
    }
  }

  lemma TargetCount(vals: seq<string>, range: Option<string>, b: Base)
    ensures TargetIris(vals, range, b).Some? ==> |TargetIris(vals, range, b).value| == |vals|
  {
  }
}
