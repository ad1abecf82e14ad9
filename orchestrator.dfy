/** The state and the `handleGenerate` routine of App.tsx. A run is started by the user, makes at
    most one call to the language model, and ends with either published cards or an error message.
    The replies of the model are parameters. */
module Orchestrator {
  import opened Wrappers
  import opened Strings
  import opened Types
  import opened Gemini
  import opened Pairs
  import opened Enrichment

  /** A call a run makes to the language model. */
  datatype Call = DefineCall(define: DefineRequest) | GenerateCall(generate: GenerateRequest)

  /** What a run does: the calls it makes, and the cards it publishes or the message it throws. */
  datatype Run = Run(calls: seq<Call>, outcome: Result<seq<Flashcard>>)

  const DefaultMix := DifficultyMix(40, 40, 20)

  const UnexpectedError := "An unexpected error occurred. Check the console for details."

  /** The mix a topic request carries: the user's when it adds up to 100, otherwise 40/40/20. */
  function EffectiveMix(mix: DifficultyMix): (r: DifficultyMix)
    ensures r.Total() == 100
    ensures mix.Total() == 100 ==> r == mix
    ensures mix.Total() != 100 ==> r == DefaultMix
  {
    if mix.Total() != 100 then DefaultMix else mix
  }

  /** The guard on the generate button: never while a run is in flight, otherwise the input of the
      current mode must be longer than two UTF-16 code units once trimmed. Three characters
      always suffice; two suffice when one of them lies outside the Basic Multilingual Plane. */
  function CanGenerateFor(loading: bool, mode: Mode, topic: string, pairsText: string): (r: bool)
    ensures var input := Trim(if mode == TopicMode then topic else pairsText);
            && (r <==> !loading && Utf16Length(input) > 2)
            && (!loading && |input| > 2 ==> r)
            && (|input| <= 1 ==> !r)
  {
    if loading then false
    else if mode == TopicMode then Utf16Length(Trim(topic)) > 2
    else Utf16Length(Trim(pairsText)) > 2
  }

  /** The message shown for a thrown error: `e.message || UnexpectedError`. */
  function ErrorText(message: string): (r: string)
    ensures r != ""
    ensures message != "" ==> r == message
    ensures message == "" ==> r == UnexpectedError
  {
    if message != "" then message else UnexpectedError
  }

  /** The pairs branch: parse, look up the terms that lack a definition (only if there are any),
      fill the definitions in, drop what is still incomplete and number the rest.
      The lookup is made exactly when some parsed card has an empty definition, once, with the
      terms of exactly those cards; the run fails exactly when that lookup fails or one of its
      entries has no string term; published cards have a definition and are numbered from 0. */
  function PairsRun(pairsText: string, lang: Language, lookupReply: Reply): (r: Run)
    ensures var parsed := ParsePairs(pairsText);
            var terms := TermsWithoutDefs(parsed);
            && (r.calls == [] <==> forall i :: 0 <= i < |parsed| ==> parsed[i].definition != [])
            && (r.calls != [] ==> r.calls == [DefineCall(DefineTermsRequest(terms, lang))])
            && (r.outcome.Failure? <==>
                  terms != [] && (DefineTerms(lookupReply).Failure? || Entries(DefineTerms(lookupReply).value).Failure?))
            && (terms != [] && DefineTerms(lookupReply).Failure? ==> r.outcome == Failure(DefineFailedMessage))
            && (terms != [] && DefineTerms(lookupReply).Success? && Entries(DefineTerms(lookupReply).value).Failure?
                ==> r.outcome == Failure(LookupTypeError))
            && (r.outcome.Success? ==>
                  var cards := r.outcome.value;
                  && (forall i :: 0 <= i < |cards| ==> cards[i].id == i && cards[i].definition != [])
                  && (terms == [] ==> Sequences.Map(cards, FieldsOf) == Complete(parsed))
                  && (terms != [] ==>
                        Sequences.Map(cards, FieldsOf)
                        == Complete(Enrich(parsed, DefinitionMap(Entries(DefineTerms(lookupReply).value).value)))))
  {
    var parsed := ParsePairs(pairsText);
    var terms := TermsWithoutDefs(parsed);
    NoTermsWithoutDefs(parsed);
    if |terms| == 0 then Run([], Success(Publish(parsed)))
    else
      var calls := [DefineCall(DefineTermsRequest(terms, lang))];
      var defined := DefineTerms(lookupReply);
      if defined.Failure? then Run(calls, Failure(defined.error))
      else
        var entries := Entries(defined.value);
        if entries.Failure? then Run(calls, Failure(entries.error))
        else Run(calls, Success(Publish(Enrich(parsed, DefinitionMap(entries.value)))))
  }

  /** The topic branch: one generation request carrying the options as given, and either the
      filtered cards numbered by their place in the reply, or the fixed failure message. */
  function TopicRun(options: GenerateOptions, generationReply: Reply): (r: Run)
    ensures r.calls == [GenerateCall(TopicRequest(options))]
    ensures r.outcome.Success? <==> generationReply.Parsed? && generationReply.value.JArray?
    ensures r.outcome.Success? ==>
              var cards := r.outcome.value;
              var drafts := FilterCards(generationReply.value.items);
              |cards| == |drafts| && forall i :: 0 <= i < |cards| ==> cards[i].id == i && cards[i].Fields() == drafts[i]
    ensures r.outcome.Failure? ==> r.outcome.error == GenerateFailedMessage
  {
    var generated := GenerateFlashcardsFromTopic(generationReply);
    Run([GenerateCall(TopicRequest(options))],
        if generated.Success? then Success(Number(generated.value)) else Failure(generated.error))
  }

  /** The `try` body of the pairs branch, step by step: the calls it makes and what it
      publishes or throws. */
  method GeneratePairs(pairsText: string, lang: Language, lookupReply: Reply)
    returns (calls: seq<Call>, outcome: Result<seq<Flashcard>>)
    ensures Run(calls, outcome) == PairsRun(pairsText, lang, lookupReply)
  {
    var parsed := ParsePairs(pairsText);
    var termsWithoutDefs := TermsWithoutDefs(parsed);
    var enrichedCards := parsed;
    calls := [];
    if |termsWithoutDefs| > 0 {
      calls := [DefineCall(DefineTermsRequest(termsWithoutDefs, lang))];
      var defined := DefineTerms(lookupReply);
      if defined.Failure? {
        return calls, Failure(defined.error);
      }
      var entries := Entries(defined.value);
      if entries.Failure? {
        return calls, Failure(entries.error);
      }
      enrichedCards := Enrich(parsed, DefinitionMap(entries.value));
    }
    outcome := Success(Publish(enrichedCards));
  }

  /** The `try` body of the topic branch: one call, and the numbered cards or the thrown message. */
  method GenerateTopic(options: GenerateOptions, generationReply: Reply)
    returns (calls: seq<Call>, outcome: Result<seq<Flashcard>>)
    ensures Run(calls, outcome) == TopicRun(options, generationReply)
  {
    calls := [GenerateCall(TopicRequest(options))];
    var generated := GenerateFlashcardsFromTopic(generationReply);
    if generated.Failure? {
      return calls, Failure(generated.error);
    }
    outcome := Success(Number(generated.value));
  }

  /** The state App.tsx keeps: the inputs of both forms, and the in-flight flag, error message and
      published cards of the current run. */
  class App {
    var mode: Mode
    var topic: string
    var pairsText: string
    var count: int
    var lang: Language
    var includeHint: bool
    var includeExample: bool
    var bloomLevel: BloomLevel
    var difficultyMix: DifficultyMix
    var temperature: real
    var loading: bool
    var error: string
    var cards: seq<Flashcard>

    /** The initial state. */
    constructor ()
      ensures mode == TopicMode && topic == "" && pairsText == "" && count == 10 && lang == English
      ensures includeHint && includeExample && bloomLevel == Understand
      ensures difficultyMix == DifficultyMix(40, 40, 20) && temperature == 0.5
      ensures !loading && error == "" && cards == []
    {
      mode := TopicMode;
      topic := "";
      pairsText := "";
      count := 10;
      lang := English;
      includeHint := true;
      includeExample := true;
      bloomLevel := Understand;
      difficultyMix := DifficultyMix(40, 40, 20);
      temperature := 0.5;
      loading := false;
      error := "";
      cards := [];
    }

    /** `isMixWarning`. */
    function IsMixWarning(): (r: bool)
      reads this`difficultyMix
      ensures !r <==> EffectiveMix(difficultyMix) == difficultyMix
    {
      difficultyMix.Total() != 100
    }

    /** `canGenerate`. */
    function CanGenerate(): (r: bool)
      reads this
      ensures r ==> !loading
      ensures !loading ==> (r <==> Utf16Length(Trim(if mode == TopicMode then topic else pairsText)) > 2)
    {
      CanGenerateFor(loading, mode, topic, pairsText)
    }

    /** The options a topic run sends, with the mix replaced when it does not add up to 100. */
    function Options(): (o: GenerateOptions)
      reads this`topic, this`count, this`lang, this`includeHint, this`includeExample
      reads this`bloomLevel, this`difficultyMix, this`temperature
      ensures o.difficultyMix == if IsMixWarning() then DefaultMix else difficultyMix
      ensures o.temperature == temperature && o.count == count && o.topic == topic
      ensures o.lang == lang && o.includeHint == includeHint && o.includeExample == includeExample
      ensures o.bloomLevel == bloomLevel
    {
      GenerateOptions(topic, count, lang, includeHint, includeExample, bloomLevel,
                      EffectiveMix(difficultyMix), temperature)
    }

    /** The run the current inputs call for. */
    function CurrentRun(lookupReply: Reply, generationReply: Reply): Run
      reads this`mode, this`topic, this`pairsText, this`count, this`lang, this`includeHint
      reads this`includeExample, this`bloomLevel, this`difficultyMix, this`temperature
    {
      if mode == PairsMode then PairsRun(pairsText, lang, lookupReply) else TopicRun(Options(), generationReply)
    }

    /** Entering a run: in flight, with no error and no cards from the previous run. */
    method Start()
      modifies this`loading, this`error, this`cards
      ensures loading && error == "" && cards == []
    {
      loading := true;
      error := "";
      cards := [];
    }

    /** `handleGenerate`: start, run the branch of the current mode inside `try`, record a thrown
        message in `catch`, and leave the in-flight state in `finally`. Returns the calls made. */
    method HandleGenerate(lookupReply: Reply, generationReply: Reply) returns (calls: seq<Call>)
      modifies this`loading, this`error, this`cards
      ensures var run := old(CurrentRun(lookupReply, generationReply));
              && calls == run.calls
              && !loading
              && (run.outcome.Success? ==> error == "" && cards == run.outcome.value)
              && (run.outcome.Failure? ==> error == ErrorText(run.outcome.error) && cards == [])
      ensures error != "" <==> old(CurrentRun(lookupReply, generationReply)).outcome.Failure?
      ensures CanGenerate() <==> Utf16Length(Trim(if mode == TopicMode then topic else pairsText)) > 2
    {
      Start();
      var outcome;
      calls, outcome := Compute(lookupReply, generationReply);
      Finish(outcome);
    }

    /** The `try` body: the branch of the current mode, given the replies it receives. */
    method Compute(lookupReply: Reply, generationReply: Reply) returns (calls: seq<Call>, outcome: Result<seq<Flashcard>>)
      ensures Run(calls, outcome) == CurrentRun(lookupReply, generationReply)
    {
      if mode == PairsMode {
        calls, outcome := GeneratePairs(pairsText, lang, lookupReply);
      } else {
        calls, outcome := GenerateTopic(Options(), generationReply);
      }
    }

    /** Leaving a run: the published cards, or the message of what was thrown; no longer in flight. */
    method Finish(outcome: Result<seq<Flashcard>>)
      requires error == "" && cards == []
      modifies this`loading, this`error, this`cards
      ensures !loading
      ensures outcome.Success? ==> error == "" && cards == outcome.value
      ensures outcome.Failure? ==> error == ErrorText(outcome.error) && cards == []
      ensures error != "" <==> outcome.Failure?
    {
      if outcome.Success? {
        cards := outcome.value;
      } else {
        error := ErrorText(outcome.error);
      }
      loading := false;
    }
  }
}
