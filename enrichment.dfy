/** The pairs branch of `handleGenerate` in App.tsx, apart from its state changes: which terms are
    looked up, how the lookup's answers fill the missing definitions, and how the surviving cards are
    numbered. */
module Enrichment {
  import opened Wrappers
  import opened Sequences
  import opened Strings
  import opened Types
  import opened Gemini

  /** `!p.definition`: the empty string is the only falsy string. */
  predicate Undefined(d: Draft) {
    d.definition == []
  }

  predicate Defined(d: Draft) {
    d.definition != []
  }

  function TermOf(d: Draft): string {
    d.term
  }

  /** `parsed.filter((p) => !p.definition).map((p) => p.term)`. */
  function TermsWithoutDefs(parsed: seq<Draft>): (r: seq<string>)
    ensures |r| <= |parsed|
    ensures forall t :: t in r ==> exists d :: d in parsed && d.definition == [] && d.term == t
  {
    var undefined := Filter(parsed, Undefined);
    var r := Map(undefined, TermOf);
    assert forall i :: 0 <= i < |r| ==> undefined[i] in undefined && r[i] == undefined[i].term;
    r
  }

  /** The terms looked up come from the cards in input order, duplicates kept. */
  lemma TermsWithoutDefsAppend(a: seq<Draft>, b: seq<Draft>)
    ensures TermsWithoutDefs(a + b) == TermsWithoutDefs(a) + TermsWithoutDefs(b)
  {
    FilterAppend(a, b, Undefined);
    MapAppend(Filter(a, Undefined), Filter(b, Undefined), TermOf);
  }

  /** A card contributes its term exactly when its definition is empty. */
  lemma TermsWithoutDefsSingle(d: Draft)
    ensures TermsWithoutDefs([d]) == if d.definition == [] then [d.term] else []
  {
    FilterSingle(d, Undefined);
  }

  /** No term is looked up exactly when every card already has a definition. */
  lemma {:induction false} NoTermsWithoutDefs(parsed: seq<Draft>)
    ensures TermsWithoutDefs(parsed) == [] <==> forall i :: 0 <= i < |parsed| ==> parsed[i].definition != []
  {
    if parsed != [] {
      assert parsed == [parsed[0]] + parsed[1..];
      TermsWithoutDefsAppend([parsed[0]], parsed[1..]);
      TermsWithoutDefsSingle(parsed[0]);
      NoTermsWithoutDefs(parsed[1..]);
      assert forall i :: 1 <= i < |parsed| ==> parsed[i] == parsed[1..][i - 1];
    }
  }

  /** Stand-in for the text of the TypeError the engine throws when `d.term.toLowerCase()` is
      applied to an entry that has no string `term`. */
  const LookupTypeError := "TypeError: d.term.toLowerCase is not a function"

  /** An entry `d.term.toLowerCase()` can be applied to. */
  predicate HasStringTerm(j: Json) {
    j.JObject? && "term" in j.fields && j.fields["term"].JString?
  }

  /** The pair `[d.term.toLowerCase(), d.definition]` of one entry; a definition that is not a string
      is read as the empty one. */
  function Entry(j: Json): (string, string)
    requires HasStringTerm(j)
  {
    (Lower(j.fields["term"].s), StringField(j, "definition").GetOr(""))
  }

  /** `defined.map((d) => [d.term.toLowerCase(), d.definition])`, which throws at the first entry
      without a string term. */
  function Entries(defined: seq<Json>): (r: Result<seq<(string, string)>>)
    ensures r.Success? <==> forall i :: 0 <= i < |defined| ==> HasStringTerm(defined[i])
    ensures r.Success? ==> |r.value| == |defined|
                           && forall i :: 0 <= i < |defined| ==> r.value[i] == Entry(defined[i])
    ensures r.Failure? ==> r.error == LookupTypeError
  {
    if defined == [] then Success([])
    else if !HasStringTerm(defined[0]) then Failure(LookupTypeError)
    else
      var rest := Entries(defined[1..]);
      if rest.Failure? then rest else Success([Entry(defined[0])] + rest.value)
  }

  /** `new Map(entries)`: entries are inserted in order, so a later entry replaces an earlier one
      with the same key. */
  function DefinitionMap(entries: seq<(string, string)>): (r: map<string, string>)
    ensures |r| <= |entries|
  {
    if entries == [] then map[]
    else
      var last := entries[|entries| - 1];
      DefinitionMap(entries[..|entries| - 1])[last.0 := last.1]
  }

  /** A key is in the map exactly when some entry has it. */
  lemma {:induction false} DefinitionMapKeys(entries: seq<(string, string)>, k: string)
    ensures k in DefinitionMap(entries) <==> exists i :: 0 <= i < |entries| && entries[i].0 == k
  {
    if entries != [] {
      var n := |entries| - 1;
      var init := entries[..n];
      DefinitionMapKeys(init, k);
      if exists i :: 0 <= i < |entries| && entries[i].0 == k {
        var i :| 0 <= i < |entries| && entries[i].0 == k;
        if i < n { assert init[i] == entries[i]; }
      }
      if exists i :: 0 <= i < |init| && init[i].0 == k {
        var i :| 0 <= i < |init| && init[i].0 == k;
        assert entries[i] == init[i];
      }
    }
  }

  /** A key maps to the definition of the last entry that has it. */
  lemma {:induction false} DefinitionMapLastWins(entries: seq<(string, string)>, k: string, j: nat)
    requires j < |entries| && entries[j].0 == k
    requires forall i :: j < i < |entries| ==> entries[i].0 != k
    ensures k in DefinitionMap(entries) && DefinitionMap(entries)[k] == entries[j].1
  {
    var n := |entries| - 1;
    if j < n {
      var init := entries[..n];
      assert init[j] == entries[j];
      DefinitionMapLastWins(init, k, j);
    }
  }

  /** `definitionMap.get(key) || ''`. */
  function Lookup(m: map<string, string>, key: string): (r: string)
    ensures key in m ==> r == m[key]
    ensures key !in m ==> r == ""
    ensures r != "" ==> key in m && m[key] == r
  {
    if key in m then m[key] else ""
  }

  /** A card keeps a non-empty definition; an empty one is filled from the map under the card's
      lower-cased term, or stays empty when the term is missing. */
  function Fill(m: map<string, string>, d: Draft): (r: Draft)
    ensures r.term == d.term && r.hint == d.hint && r.example == d.example && r.difficulty == d.difficulty
    ensures d.definition != [] ==> r == d
    ensures d.definition == [] ==> r.definition == Lookup(m, Lower(d.term))
  {
    if d.definition != [] then d else d.(definition := Lookup(m, Lower(d.term)))
  }

  /** `parsed.map((card) => card.definition ? card : { ...card, definition: ... })`. */
  function Enrich(parsed: seq<Draft>, m: map<string, string>): (r: seq<Draft>)
    ensures |r| == |parsed|
    ensures forall i :: 0 <= i < |parsed| && parsed[i].definition != [] ==> r[i] == parsed[i]
    ensures forall i :: 0 <= i < |parsed| && parsed[i].definition == [] ==>
              r[i] == parsed[i].(definition := Lookup(m, Lower(parsed[i].term)))
  {
    Map(parsed, d => Fill(m, d))
  }

  /** When every card has a definition, enriching changes nothing, so skipping the lookup in that
      case gives the same cards. */
  lemma EnrichAllDefined(parsed: seq<Draft>, m: map<string, string>)
    requires TermsWithoutDefs(parsed) == []
    ensures Enrich(parsed, m) == parsed
  {
    NoTermsWithoutDefs(parsed);
  }

  /** Looking a key up gives the empty definition unless some entry has that key. */
  lemma LookupMissing(entries: seq<(string, string)>, key: string)
    ensures Lookup(DefinitionMap(entries), key) == "" || exists j :: 0 <= j < |entries| && entries[j].0 == key
  {
    DefinitionMapKeys(entries, key);
  }

  /** A card without a definition gets the definition of the last entry whose key equals its
      lower-cased term, or stays empty when there is none; every other field is kept. With the
      entries of `Entries`, the key of an entry is the lower-cased term the model returned. */
  lemma EnrichFromEntries(parsed: seq<Draft>, entries: seq<(string, string)>, i: nat)
    requires i < |parsed| && parsed[i].definition == []
    ensures var r := Enrich(parsed, DefinitionMap(entries));
            && r[i].term == parsed[i].term && r[i].hint == parsed[i].hint
            && r[i].example == parsed[i].example && r[i].difficulty == parsed[i].difficulty
            && (r[i].definition == "" || exists j :: 0 <= j < |entries| && entries[j].0 == Lower(parsed[i].term))
            && forall j :: 0 <= j < |entries| && entries[j].0 == Lower(parsed[i].term)
                 && (forall k :: j < k < |entries| ==> entries[k].0 != Lower(parsed[i].term))
                 ==> r[i].definition == entries[j].1
  {
    var key := Lower(parsed[i].term);
    LookupMissing(entries, key);
    forall j | 0 <= j < |entries| && entries[j].0 == key && (forall k :: j < k < |entries| ==> entries[k].0 != key)
      ensures Lookup(DefinitionMap(entries), key) == entries[j].1
    {
      DefinitionMapLastWins(entries, key, j);
    }
  }

  /** `enrichedCards.filter(c => c.definition)`. */
  function Complete(cards: seq<Draft>): (r: seq<Draft>)
    ensures |r| <= |cards|
    ensures forall d :: d in r ==> d in cards && d.definition != []
  {
    Filter(cards, Defined)
  }

  /** The kept cards are those of each part, in order. */
  lemma CompleteAppend(a: seq<Draft>, b: seq<Draft>)
    ensures Complete(a + b) == Complete(a) + Complete(b)
  {
    FilterAppend(a, b, Defined);
  }

  /** A card is kept exactly when its definition is non-empty, whatever its term. */
  lemma CompleteSingle(d: Draft)
    ensures Complete([d]) == if d.definition != [] then [d] else []
  {
    FilterSingle(d, Defined);
  }

  /** `.map((c, index) => ({ ...c, id: index }))`. */
  function Number(drafts: seq<Draft>): (r: seq<Flashcard>)
    ensures |r| == |drafts|
    ensures forall i :: 0 <= i < |r| ==> r[i].id == i && r[i].Fields() == drafts[i]
  {
    seq(|drafts|, i requires 0 <= i < |drafts| => WithId(drafts[i], i))
  }

  function FieldsOf(c: Flashcard): Draft {
    c.Fields()
  }

  /** Numbering only adds ids: dropping them again gives back the drafts, and the ids are distinct. */
  lemma NumberFields(drafts: seq<Draft>)
    ensures Map(Number(drafts), FieldsOf) == drafts
    ensures forall i, j :: 0 <= i < j < |drafts| ==> Number(drafts)[i].id != Number(drafts)[j].id
  {
  }

  /** The published cards of the pairs branch. */
  function Publish(enriched: seq<Draft>): (r: seq<Flashcard>)
    ensures forall i :: 0 <= i < |r| ==> r[i].id == i && r[i].definition != []
    ensures Map(r, FieldsOf) == Complete(enriched)
  {
    var kept := Complete(enriched);
    var r := Number(kept);
    assert forall i :: 0 <= i < |r| ==> r[i].definition == kept[i].definition;
    assert forall i :: 0 <= i < |kept| ==> kept[i] in kept;
    r
  }
}
