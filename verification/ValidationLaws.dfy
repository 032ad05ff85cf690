/** What validation judges: which values of a document it collects, under which class, and what a reader of its Turtle
    makes of them (`collect_kit_values` and `frontmatter_to_turtle`, src/extraction.rs). */
module ValidationLaws {
  import opened Wrappers
  import opened Text
  import opened References
  import opened ReferenceWriters
  import opened Emission
  import opened Validation
  import NQuads
  import S = Subjects
  import KitValues

  // ----- what is collected -----

  /** The later entries of a document add their values behind the earlier ones, and its class is the earlier ones' when
      they have one. */
  lemma {:induction false} CollectJoins(ont: S.Ontology, kit: string, a: Entries, b: Entries)
    ensures Collect(ont, kit, a + b) ==
      match (Collect(ont, kit, a), Collect(ont, kit, b))
      case (Some(c), Some(d)) =>
        Some(Collected(if c.docType.Some? then c.docType else d.docType, c.pairs + d.pairs))
      case _ => None
  {
    hide EntryKey, KitValues.KitValuesOf, Pairs;
    if b == [] {
      assert a + b == a;
      assert forall pairs: seq<(string, string)> :: pairs + [] == pairs;
    } else {
      var init, last := b[..|b| - 1], b[|b| - 1];
      CollectJoins(ont, kit, a, init);
      assert (a + b)[..|a + b| - 1] == a + init && (a + b)[|a + b| - 1] == last;
      if Collect(ont, kit, a).Some? && Collect(ont, kit, init).Some? {
        var c, d := Collect(ont, kit, a).value, Collect(ont, kit, init).value;
        AddJoins(ont, kit, c, d, last);
      }
    }
  }

  lemma AddJoins(ont: S.Ontology, kit: string, c: Collected, d: Collected, e: (KitValues.Yaml, KitValues.Yaml))
    ensures var cd := Collected(if c.docType.Some? then c.docType else d.docType, c.pairs + d.pairs);
      Add(ont, kit, cd, e) == match Add(ont, kit, d, e)
      case Some(f) => Some(Collected(if c.docType.Some? then c.docType else f.docType, c.pairs + f.pairs))
      case None => None
  {
    hide EntryKey, KitValues.KitValuesOf, Pairs;
    if EntryKey(kit, e).Some? && KitValues.KitValuesOf(e.1).Some? {
      var more := Pairs(EntryKey(kit, e).value.1, KitValues.KitValuesOf(e.1).value);
      assert c.pairs + d.pairs + more == c.pairs + (d.pairs + more);
    }
  }

  /** An entry under kit.Seg.prop gives the class of its segment and each of its values under its property; or its shape
      refuses the document. */
  lemma EntryGives(ont: S.Ontology, kit: string, seg: string, prop: string, v: KitValues.Yaml)
    requires '.' !in seg
    ensures var c := Collect(ont, kit, [(KitValues.Str(kit + "." + seg + "." + prop), v)]);
      match KitValues.KitValuesOf(v)
      case None => c.None?
      case Some(vals) =>
        c.Some? && c.value.docType == Some(ont.resolveClass(kit, seg)) && |c.value.pairs| == |vals|
        && forall i :: 0 <= i < |vals| ==> c.value.pairs[i] == (prop, vals[i])
  {
    hide KitValues.KitValuesOf, Pairs, KitKey;
    var key := kit + "." + seg + "." + prop;
    OneEntry(ont, kit, (KitValues.Str(key), v));
    KitKeyOf(kit, seg, prop);
    if KitValues.KitValuesOf(v).Some? {
      PairsAre(prop, KitValues.KitValuesOf(v).value);
    }
  }

  lemma KitKeyOf(kit: string, seg: string, prop: string)
    requires '.' !in seg
    ensures KitKey(kit, kit + "." + seg + "." + prop) == Some((seg, prop))
  {
    var key, rest := kit + "." + seg + "." + prop, seg + "." + prop;
    assert key[|kit| + 1..] == rest && kit + "." <= key;
    assert rest[..|seg|] == seg && rest[|seg|] == '.' && rest[|seg| + 1..] == prop;
    IndexOfUnique(rest, '.', |seg|);
  }

  lemma OneEntry(ont: S.Ontology, kit: string, e: (KitValues.Yaml, KitValues.Yaml))
    ensures Collect(ont, kit, [e]) == Add(ont, kit, Collected(None, []), e)
  {
    hide Add;
    assert [e][..0] == [];
  }

  lemma PairsAre(prop: string, vals: seq<string>)
    ensures [] + Pairs(prop, vals) == Pairs(prop, vals) && |Pairs(prop, vals)| == |vals|
    ensures forall i :: 0 <= i < |vals| ==> Pairs(prop, vals)[i] == (prop, vals[i])
  {
  }

  /** An entry under any other key gives nothing: a key that is no text, of another kit, or without a property. */
  lemma OtherKeysGiveNothing(ont: S.Ontology, kit: string, key: KitValues.Yaml, v: KitValues.Yaml)
    requires key.Str? && StartsWith(key.s, kit + ".") ==> '.' !in key.s[|kit| + 1..]
    ensures Collect(ont, kit, [(key, v)]) == Some(Collected(None, []))
  {
    OneEntry(ont, kit, (key, v));
  }

  // ----- what is written -----

  /** The Turtle of a document is the Turtle of its values, in order. */
  lemma {:induction false} ValuesInOrder(t: Tables, j: Judge, a: seq<(string, string)>, b: seq<(string, string)>)
    ensures TurtleValues(t, j, a + b) ==
      match (TurtleValues(t, j, a), TurtleValues(t, j, b))
      case (Some(x), Some(y)) => Some(x + y)
      case _ => None
  {
    hide TurtleValue;
    if b == [] {
      assert a + b == a;
      assert forall text: string :: text + "" == text;
    } else {
      var init, last := b[..|b| - 1], b[|b| - 1];
      ValuesInOrder(t, j, a, init);
      assert (a + b)[..|a + b| - 1] == a + init && (a + b)[|a + b| - 1] == last;
      Regrouped(t, j, a, init, last);
    }
  }

  lemma Regrouped(t: Tables, j: Judge, a: seq<(string, string)>, b: seq<(string, string)>, last: (string, string))
    ensures TurtleValues(t, j, a).Some? && TurtleValues(t, j, b).Some? && TurtleValue(t, j, last.0, last.1).Some? ==>
      TurtleValues(t, j, a).value + TurtleValues(t, j, b).value + TurtleValue(t, j, last.0, last.1).value
      == TurtleValues(t, j, a).value + (TurtleValues(t, j, b).value + TurtleValue(t, j, last.0, last.1).value)
  {
  }

  /** The declared IRI of a property, or its name behind the kit's prefix. */
  function WrittenPredicate(t: Tables, j: Judge, name: string): string {
    if j.kit + "/" + j.docType + "/" + name in t.propIris
    then "<" + t.propIris[j.kit + "/" + j.docType + "/" + name] + ">"
    else j.prefix + ":" + name
  }

  function WrittenDatatype(t: Tables, j: Judge, name: string): string {
    if j.kit + "/" + j.docType + "/" + name in t.datatypes
    then "^^<" + t.datatypes[j.kit + "/" + j.docType + "/" + name] + ">"
    else ""
  }

  /** A value of a property that is no reference is always written, with its subject and predicate before it and its
      datatype behind it. A reader of the quoted text gets the value back exactly when there is no line break in it:
      with one the text cannot be read, though the loop lets the value through. */
  lemma LiteralReadsBackIff(t: Tables, j: Judge, authored: string, value: string)
    requires j.kit + "/" + j.docType + "/" + EffectiveProp(t, j.kit, j.docType, authored) !in t.objProps
    ensures var name := EffectiveProp(t, j.kit, j.docType, authored);
      var head := "<" + j.doc + "> " + WrittenPredicate(t, j, name) + " \"";
      var line := TurtleValue(t, j, authored, value);
      line.Some? && head <= line.value
      && NQuads.ReadQuoted(line.value[|head|..])
         == if KitValues.HasBreak(value) then None else Some((value, WrittenDatatype(t, j, name) + " .\n"))
  {
    hide EffectiveProp, NQuads.TurtleEscape, KitValues.HasBreak, NQuads.ReadQuoted;
    var name := EffectiveProp(t, j.kit, j.docType, authored);
    var head := "<" + j.doc + "> " + WrittenPredicate(t, j, name) + " \"";
    var tail := WrittenDatatype(t, j, name) + " .\n";
    LineIs(t, j, authored, value);
    var line := TurtleValue(t, j, authored, value).value;
    assert line[|head|..] == NQuads.TurtleEscape(value) + ("\"" + tail);
    TurtleReadsIff(value, tail);
  }

  lemma LineIs(t: Tables, j: Judge, authored: string, value: string)
    requires j.kit + "/" + j.docType + "/" + EffectiveProp(t, j.kit, j.docType, authored) !in t.objProps
    ensures var name := EffectiveProp(t, j.kit, j.docType, authored);
      TurtleValue(t, j, authored, value)
      == Some("<" + j.doc + "> " + WrittenPredicate(t, j, name) + " \""
              + (NQuads.TurtleEscape(value) + ("\"" + (WrittenDatatype(t, j, name) + " .\n"))))
  {
    hide EffectiveProp, NQuads.TurtleEscape;
    var name := EffectiveProp(t, j.kit, j.docType, authored);
    var head, text := "<" + j.doc + "> " + WrittenPredicate(t, j, name), NQuads.TurtleEscape(value);
    var dt := WrittenDatatype(t, j, name);
    assert head + " \"" + text + "\" .\n" == head + " \"" + (text + ("\"" + ("" + " .\n")));
    if dt != "" {
      var iri := t.datatypes[j.kit + "/" + j.docType + "/" + name];
      TypedTail(head, text, iri);
    }
  }

  lemma TypedTail(head: string, text: string, iri: string)
    ensures head + " \"" + text + "\"^^<" + iri + "> .\n"
      == head + " \"" + (text + ("\"" + ("^^<" + iri + ">" + " .\n")))
  {
    assert "\"^^<" == "\"" + "^^<" && "> .\n" == ">" + " .\n";
  }

  lemma {:induction false} TurtleReadsIff(value: string, tail: string)
    ensures NQuads.ReadQuoted(NQuads.TurtleEscape(value) + ("\"" + tail))
      == if KitValues.HasBreak(value) then None else Some((value, tail))
  {
    hide NQuads.TurtleEscape;
    if value == "" {
      TurtleEscapeEmpty();
      assert "" + ("\"" + tail) == "\"" + tail && ("\"" + tail)[1..] == tail;
      assert !KitValues.HasBreak(value) by { NoBreakInNothing(); }
    } else {
      var rest := NQuads.TurtleEscape(value[1..]) + ("\"" + tail);
      TurtleReadsIff(value[1..], tail);
      TurtleEscapeFirst(value[0], value[1..]);
      assert value == [value[0]] + value[1..];
      assert KitValues.HasBreak(value) <==> KitValues.IsBreak(value[0]) || KitValues.HasBreak(value[1..]);
      assert NQuads.TurtleEscape(value) + ("\"" + tail) == TurtleChar(value[0]) + rest;
      ReadOne(value[0], rest);
    }
  }

  lemma NoBreakInNothing()
    ensures !KitValues.HasBreak("")
  {
  }

  function TurtleChar(c: char): string {
    if c == '\\' || c == '"' then ['\\', c] else [c]
  }

  lemma ReadOne(c: char, rest: string)
    ensures NQuads.ReadQuoted(TurtleChar(c) + rest) ==
      if KitValues.IsBreak(c) then None
      else match NQuads.ReadQuoted(rest) case Some((t, after)) => Some(([c] + t, after)) case None => None
  {
    assert (TurtleChar(c) + rest)[|TurtleChar(c)|..] == rest;
  }

  lemma TurtleEscapeEmpty()
    ensures NQuads.TurtleEscape("") == ""
  {
  }

  lemma TurtleEscapeFirst(c: char, s: string)
    ensures NQuads.TurtleEscape([c] + s) == TurtleChar(c) + NQuads.TurtleEscape(s)
  {
    hide NQuads.Replace;
    NQuads.ReplaceConcat([c], s, '\\', "\\\\");
    NQuads.ReplaceOne(c, '\\', "\\\\");
    var first, r := if c == '\\' then "\\\\" else [c], NQuads.Replace(s, '\\', "\\\\");
    NQuads.ReplaceConcat(first, r, '"', "\\\"");
    QuoteEscaped(c);
  }

  lemma QuoteEscaped(c: char)
    ensures NQuads.Replace(if c == '\\' then "\\\\" else [c], '"', "\\\"") == TurtleChar(c)
  {
    assert "\\\\"[1..] == "\\" && ['\\', '\\'] == "\\\\";
  }
}
