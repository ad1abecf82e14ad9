/** Worked scenarios of the flashcard generator, each derived from the general properties of the
    modules it exercises. */
module Scenarios {
  import opened Wrappers
  import opened Strings
  import opened Types
  import opened Gemini
  import opened Pairs
  import opened Enrichment
  import opened Export
  import opened Orchestrator

  /** A line cut at its `:`. */
  lemma ColonScenario()
    ensures ParseLine("A:B") == PairRecord("A", "B")
  {
    TrimTrimmed("A");
    TrimTrimmed("B");
    assert "A:B" == "A" + [':'] + "B";
    ParseLineColon("A", "B");
  }

  /** A `:` wins over an earlier `-`. */
  lemma ColonOverDashScenario()
    ensures ParseLine("A-B:C") == PairRecord("A-B", "C")
  {
    TrimTrimmed("A-B");
    TrimTrimmed("C");
    assert ':' !in "A-B" by { assert forall i :: 0 <= i < 3 ==> "A-B"[i] != ':'; }
    assert "A-B:C" == "A-B" + [':'] + "C";
    ParseLineColon("A-B", "C");
  }

  /** A line without `:` or `-` cut at its `,`. */
  lemma CommaScenario()
    ensures ParseLine("A,B") == PairRecord("A", "B")
  {
    TrimTrimmed("A");
    TrimTrimmed("B");
    assert "A,B" == "A" + [','] + "B";
    ParseLineComma("A", "B");
  }

  /** A line without delimiter is a term alone. */
  lemma TermOnlyScenario()
    ensures ParseLine("A") == PairRecord("A", "")
  {
    TrimTrimmed("A");
    ParseLineNoDelimiter("A");
  }

  /** A card without a definition is filled under its lower-cased term, and one whose term is not
      in the map stays empty and is not published. */
  lemma EnrichScenario()
    ensures Enrich([PairRecord("X", "")], map["x" := "means X"]) == [PairRecord("X", "means X")]
    ensures Publish(Enrich([PairRecord("X", "")], map["y" := "means Y"])) == []
  {
    assert Lower("X") == "x";
    var unfilled := Enrich([PairRecord("X", "")], map["y" := "means Y"]);
    assert unfilled == [PairRecord("X", "")];
    CompleteSingle(PairRecord("X", ""));
  }

  /** A mix adding up to 110 is replaced by 40/40/20 in the request. */
  lemma MixFallbackScenario(options: GenerateOptions)
    requires options.difficultyMix == DifficultyMix(50, 30, 30)
    ensures TopicRequest(options.(difficultyMix := EffectiveMix(options.difficultyMix))).difficultyMix
            == DifficultyMix(40, 40, 20)
  {
  }

  /** Without hints and with examples, the schema asks for an example and not for a hint. */
  lemma SchemaScenario()
    ensures "example" in TopicSchema(false, true).items.properties
    ensures "hint" !in TopicSchema(false, true).items.properties
  {
  }

  /** Quotes around a quote-free text are doubled, the rest is kept. */
  lemma QuotesAroundDoubled(a: string, b: string)
    requires '"' !in a && '"' !in b
    ensures DoubleQuotes(a + "\"" + b + "\"") == a + "\"\"" + b + "\"\""
  {
    var q := "\"";
    assert DoubleQuotes(q) == "\"\"" by { assert q[1..] == []; }
    DoubleQuotesAppend(a + q + b, q);
    DoubleQuotesAppend(a + q, b);
    DoubleQuotesAppend(a, q);
  }

  /** The quotes around `hi` are doubled, the rest is kept. */
  lemma DoubledScenario(said: string, hi: string)
    requires said == "He said, " && hi == "hi"
    ensures DoubleQuotes(said + "\"" + hi + "\"") == said + "\"\"" + hi + "\"\""
  {
    assert '"' !in said by { assert forall i :: 0 <= i < |said| ==> said[i] != '"'; }
    assert '"' !in hi by { assert forall i :: 0 <= i < |hi| ==> hi[i] != '"'; }
    QuotesAroundDoubled(said, hi);
  }

  /** A value with a comma and quotes is quoted, its quotes doubled: `He said, "hi"` is written
      as `"He said, ""hi"""`. */
  lemma CsvEscapeScenario(said: string, hi: string)
    requires said == "He said, " && hi == "hi"
    ensures CsvEscape(Some(said + "\"" + hi + "\"")) == "\"" + said + "\"\"" + hi + "\"\"\""
  {
    var v := said + "\"" + hi + "\"";
    DoubledScenario(said, hi);
    assert v[7] == ',';
    assert "\"" + (said + "\"\"" + hi + "\"\"") + "\"" == "\"" + said + "\"\"" + hi + "\"\"\"";
  }

  // ---- The pairs run on three pasted lines, one of them without a definition ----

  /** Spaces around a colon are dropped: `term : definition` is cut into its two trimmed sides. */
  lemma SpacedColonRecord(term: string, definition: string)
    requires ':' !in term && IsTrimmed(term) && IsTrimmed(definition)
    ensures ParseLine(term + " : " + definition) == PairRecord(term, definition)
  {
    var before, after := term + " ", " " + definition;
    assert term + " : " + definition == before + [':'] + after;
    assert Trim(before) == term by {
      TrimDropsTrailingSpace(term, ' ');
      TrimTrimmed(term);
    }
    assert Trim(after) == definition by {
      TrimDropsLeadingSpace(' ', definition);
      TrimTrimmed(definition);
    }
    ParseLineColon(before, after);
  }

  /** A non-blank trimmed line, alone in the text, is the one card it parses to. */
  lemma OneLine(line: string, d: Draft)
    requires '\n' !in line && line != [] && IsTrimmed(line)
    requires ParseLine(line) == d
    ensures ParsePairs(line) == [d]
  {
    TrimTrimmed(line);
    ParsePairsLine(line);
  }

  /** Two trimmed non-empty texts joined by any separator give a trimmed text. */
  lemma TrimmedJoin(a: string, sep: string, b: string)
    requires a != [] && b != [] && IsTrimmed(a) && IsTrimmed(b)
    ensures IsTrimmed(a + sep + b)
  {
    var line := a + sep + b;
    assert line[0] == a[0] && line[|line| - 1] == b[|b| - 1];
  }

  /** Such a line, alone in the text, is one card. */
  lemma SpacedColonLine(term: string, definition: string)
    requires ':' !in term && '\n' !in term && '\n' !in definition
    requires term != [] && definition != [] && IsTrimmed(term) && IsTrimmed(definition)
    ensures ParsePairs(term + " : " + definition) == [PairRecord(term, definition)]
  {
    var line := term + " : " + definition;
    assert '\n' !in line by {
      var sep := " : ";
      assert forall i :: 0 <= i < |sep| ==> sep[i] != '\n';
    }
    TrimmedJoin(term, " : ", definition);
    SpacedColonRecord(term, definition);
    OneLine(line, PairRecord(term, definition));
  }

  /** A comma with no colon or dash on the line cuts it into its two sides. */
  lemma CommaRecord(term: string, definition: string)
    requires ':' !in term && '-' !in term && ',' !in term
    requires ':' !in definition && '-' !in definition
    requires IsTrimmed(term) && IsTrimmed(definition)
    ensures ParseLine(term + "," + definition) == PairRecord(term, definition)
  {
    assert term + "," + definition == term + [','] + definition;
    TrimTrimmed(term);
    TrimTrimmed(definition);
    ParseLineComma(term, definition);
  }

  /** Such a line, alone in the text, is one card. */
  lemma CommaLine(term: string, definition: string)
    requires ':' !in term && '-' !in term && ',' !in term && '\n' !in term
    requires ':' !in definition && '-' !in definition && '\n' !in definition
    requires term != [] && definition != [] && IsTrimmed(term) && IsTrimmed(definition)
    ensures ParsePairs(term + "," + definition) == [PairRecord(term, definition)]
  {
    var line := term + "," + definition;
    assert '\n' !in line && line != [];
    TrimmedJoin(term, ",", definition);
    CommaRecord(term, definition);
    OneLine(line, PairRecord(term, definition));
  }

  /** A line without delimiters is one card with an empty definition. */
  lemma TermLine(term: string)
    requires ':' !in term && '-' !in term && ',' !in term && '\n' !in term
    requires term != [] && IsTrimmed(term)
    ensures ParsePairs(term) == [PairRecord(term, "")]
  {
    TrimTrimmed(term);
    ParseLineNoDelimiter(term);
    OneLine(term, PairRecord(term, ""));
  }

  /** Three lines parse line by line. */
  lemma ThreeLines(l1: string, l2: string, l3: string)
    ensures ParsePairs(l1 + "\n" + (l2 + "\n" + l3)) == ParsePairs(l1) + (ParsePairs(l2) + ParsePairs(l3))
  {
    ParsePairsAppend(l1, l2 + ['\n'] + l3);
    ParsePairsAppend(l2, l3);
  }

  /** The characters the parser looks for, in the first pasted line. */
  lemma ColonPieces(term: string, definition: string)
    requires term == "Derivative" && definition == "instantaneous rate of change"
    ensures ':' !in term && '\n' !in term && '\n' !in definition
    ensures IsTrimmed(term) && IsTrimmed(definition)
  {
    assert forall i :: 0 <= i < |term| ==> 'A' <= term[i] <= 'z';
    assert forall i :: 0 <= i < |definition| ==> 'A' <= definition[i] <= 'z' || definition[i] == ' ';
  }

  /** The characters the parser looks for, in the second pasted line. */
  lemma CommaPieces(term: string, definition: string)
    requires term == "TCP" && definition == "Transmission Control Protocol"
    ensures ':' !in term && '-' !in term && ',' !in term && '\n' !in term
    ensures ':' !in definition && '-' !in definition && '\n' !in definition
    ensures IsTrimmed(term) && IsTrimmed(definition)
  {
    assert forall i :: 0 <= i < |definition| ==> 'A' <= definition[i] <= 'z' || definition[i] == ' ';
  }

  /** The first pasted line is one card. */
  lemma ScenarioColonLine(term1: string, def1: string)
    requires term1 == "Derivative" && def1 == "instantaneous rate of change"
    ensures ParsePairs(term1 + " : " + def1) == [PairRecord(term1, def1)]
  {
    ColonPieces(term1, def1);
    SpacedColonLine(term1, def1);
  }

  /** The second pasted line is one card. */
  lemma ScenarioCommaLine(term2: string, def2: string)
    requires term2 == "TCP" && def2 == "Transmission Control Protocol"
    ensures ParsePairs(term2 + "," + def2) == [PairRecord(term2, def2)]
  {
    CommaPieces(term2, def2);
    CommaLine(term2, def2);
  }

  /** The third pasted line is a card without a definition. */
  lemma ScenarioTermLine(foo: string)
    requires foo == "Foo"
    ensures ParsePairs(foo) == [PairRecord(foo, "")]
  {
    TermLine(foo);
  }

  /** Three lines of one card each give the three cards in order. */
  lemma ThreeRecords(l1: string, l2: string, l3: string, a: Draft, b: Draft, c: Draft)
    requires ParsePairs(l1) == [a] && ParsePairs(l2) == [b] && ParsePairs(l3) == [c]
    ensures ParsePairs(l1 + "\n" + (l2 + "\n" + l3)) == [a, b, c]
  {
    ThreeLines(l1, l2, l3);
    assert [a] + ([b] + [c]) == [a, b, c];
  }

  /** The pasted text parses to three records, the last without a definition. */
  lemma ScenarioParse(term1: string, def1: string, term2: string, def2: string, foo: string)
    requires term1 == "Derivative" && def1 == "instantaneous rate of change"
    requires term2 == "TCP" && def2 == "Transmission Control Protocol"
    requires foo == "Foo"
    ensures ParsePairs((term1 + " : " + def1) + "\n" + ((term2 + "," + def2) + "\n" + foo))
            == [PairRecord(term1, def1), PairRecord(term2, def2), PairRecord(foo, "")]
  {
    ScenarioColonLine(term1, def1);
    ScenarioCommaLine(term2, def2);
    ScenarioTermLine(foo);
    ThreeRecords(term1 + " : " + def1, term2 + "," + def2, foo,
                 PairRecord(term1, def1), PairRecord(term2, def2), PairRecord(foo, ""));
  }

  /** The lookup answers for `Foo`: its lower-cased term finds the definition. */
  lemma ScenarioEnrich(a: Draft, b: Draft, reply: Reply, foo: string, bar: string)
    requires foo == "Foo" && bar == "bar"
    requires a.definition != [] && b.definition != []
    requires reply == Parsed(JArray([JObject(map["term" := JString(foo), "definition" := JString(bar)])]))
    ensures DefineTerms(reply).Success? && Entries(DefineTerms(reply).value).Success?
    ensures Enrich([a, b, PairRecord(foo, "")], DefinitionMap(Entries(DefineTerms(reply).value).value))
            == [a, b, PairRecord(foo, bar)]
  {
    var items := DefineTerms(reply).value;
    assert HasStringTerm(items[0]);
    var entries := Entries(items).value;
    assert Lower(foo) == "foo";
    assert entries == [("foo", bar)];
    assert DefinitionMap(entries) == map["foo" := bar];
  }

  /** Three defined records are all published, numbered 0, 1, 2. */
  lemma ScenarioPublish(a: Draft, b: Draft, c: Draft)
    requires a.definition != [] && b.definition != [] && c.definition != []
    ensures Publish([a, b, c]) == [WithId(a, 0), WithId(b, 1), WithId(c, 2)]
  {
    CompleteAppend([a, b], [c]);
    CompleteAppend([a], [b]);
    CompleteSingle(a);
    CompleteSingle(b);
    CompleteSingle(c);
    assert [a, b] + [c] == [a, b, c] && [a] + [b] == [a, b];
    var r := Publish([a, b, c]);
    assert Sequences.Map(r, FieldsOf) == [a, b, c];
    assert r[0].Fields() == a && r[1].Fields() == b && r[2].Fields() == c;
  }

  /** Only the third record lacks a definition, so only its term is looked up. */
  lemma ScenarioLookupTerms(r1: Draft, r2: Draft, r3: Draft)
    requires r1.definition != [] && r2.definition != [] && r3.definition == []
    ensures TermsWithoutDefs([r1, r2, r3]) == [r3.term]
  {
    TermsWithoutDefsAppend([r1, r2], [r3]);
    TermsWithoutDefsAppend([r1], [r2]);
    TermsWithoutDefsSingle(r1);
    TermsWithoutDefsSingle(r2);
    TermsWithoutDefsSingle(r3);
    assert [r1, r2] + [r3] == [r1, r2, r3] && [r1] + [r2] == [r1, r2];
  }

  /** The end-to-end pairs run: one lookup, for `Foo` alone, and three cards numbered 0, 1, 2 with
      the pasted definitions and the looked-up one, all of medium difficulty. */
  lemma PairsScenario(term1: string, def1: string, term2: string, def2: string, foo: string, bar: string,
                      reply: Reply)
    requires term1 == "Derivative" && def1 == "instantaneous rate of change"
    requires term2 == "TCP" && def2 == "Transmission Control Protocol"
    requires foo == "Foo" && bar == "bar"
    requires reply == Parsed(JArray([JObject(map["term" := JString(foo), "definition" := JString(bar)])]))
    ensures var run := PairsRun((term1 + " : " + def1) + "\n" + ((term2 + "," + def2) + "\n" + foo), English, reply);
            && run.calls == [DefineCall(DefineTermsRequest([foo], English))]
            && run.outcome == Success([Flashcard(0, term1, def1, Some(""), Some(""), Some(Medium)),
                                       Flashcard(1, term2, def2, Some(""), Some(""), Some(Medium)),
                                       Flashcard(2, foo, bar, Some(""), Some(""), Some(Medium))])
  {
    var r1, r2, r3 := PairRecord(term1, def1), PairRecord(term2, def2), PairRecord(foo, "");
    ScenarioParse(term1, def1, term2, def2, foo);
    ScenarioLookupTerms(r1, r2, r3);
    ScenarioEnrich(r1, r2, reply, foo, bar);
    ScenarioPublish(r1, r2, PairRecord(foo, bar));
  }
}
