/** services/geminiService.ts: the request each exported function builds and what it makes of the
    reply. The SDK call and `JSON.parse` are not modelled; their outcome is a `Reply` parameter. */
module Gemini {
  import opened Wrappers
  import opened Sequences
  import opened Strings
  import opened Types

  /** A value `JSON.parse` can return. Numbers are kept as integers. */
  datatype Json =
    | JNull
    | JBool(b: bool)
    | JNumber(n: int)
    | JString(s: string)
    | JArray(items: seq<Json>)
    | JObject(fields: map<string, Json>)

  /** The outcome of `generateContent` followed by `JSON.parse(response.text.trim())`: either
      something was thrown (the SDK failed, or the text was not JSON), or a parsed value. */
  datatype Reply = Unavailable(message: string) | Parsed(value: Json)

  datatype SchemaType = StringType | ArrayType | ObjectType

  datatype Property = Property(typ: SchemaType, description: Option<string>, enumValues: Option<seq<string>>)

  datatype ItemSchema = ItemSchema(typ: SchemaType, properties: map<string, Property>, required: seq<string>)

  /** `responseSchema`: an array whose items are objects of the given shape. */
  datatype ResponseSchema = ResponseSchema(typ: SchemaType, items: ItemSchema)

  /** `GenerateOptions`. The temperature is passed through and never computed with. */
  datatype GenerateOptions = GenerateOptions(
    topic: string,
    count: int,
    lang: Language,
    includeHint: bool,
    includeExample: bool,
    bloomLevel: BloomLevel,
    difficultyMix: DifficultyMix,
    temperature: real)

  /** What generateFlashcardsFromTopic sends: the values its prompt embeds, the sampling
      temperature and the response schema. */
  datatype GenerateRequest = GenerateRequest(
    topic: string,
    count: int,
    lang: Language,
    bloomLevel: BloomLevel,
    difficultyMix: DifficultyMix,
    temperature: real,
    schema: ResponseSchema)

  /** What defineTerms sends: the terms as its prompt lists them, the language, the temperature and
      the response schema. */
  datatype DefineRequest = DefineRequest(terms: string, lang: Language, temperature: real, schema: ResponseSchema)

  const TermProperty := Property(StringType, Some("The key term or concept."), None)
  const DefinitionProperty :=
    Property(StringType, Some("A clear and concise definition of the term (under 40 words)."), None)
  const DifficultyProperty := Property(StringType, None, Some(["easy", "medium", "hard"]))
  const HintProperty := Property(StringType, Some("A helpful hint to remember the term."), None)
  const ExampleProperty := Property(StringType, Some("A simple example illustrating the term in context."), None)
  const RequiredFields: seq<string> := ["term", "definition", "difficulty"]

  const DefineTemperature: real := 0.3

  const NotArrayMessage := "API did not return an array."
  const NotDefinitionsMessage := "API did not return an array of definitions."
  const GenerateFailedMessage := "Failed to generate flashcards. The model may be unavailable or the request could be invalid."
  const DefineFailedMessage := "Failed to auto-fill definitions."

  /** The item properties a topic request asks for: always term, definition and difficulty; hint
      and example exactly when their flags are set. */
  function TopicProperties(includeHint: bool, includeExample: bool): (p: map<string, Property>)
    ensures p.Keys == {"term", "definition", "difficulty"}
                      + (if includeHint then {"hint"} else {})
                      + (if includeExample then {"example"} else {})
    ensures "hint" in p <==> includeHint
    ensures "example" in p <==> includeExample
    ensures p["term"] == TermProperty && p["definition"] == DefinitionProperty
    ensures p["difficulty"].enumValues == Some(["easy", "medium", "hard"])
    ensures includeHint ==> p["hint"] == HintProperty
    ensures includeExample ==> p["example"] == ExampleProperty
  {
    map["term" := TermProperty, "definition" := DefinitionProperty, "difficulty" := DifficultyProperty]
    + (if includeHint then map["hint" := HintProperty] else map[])
    + (if includeExample then map["example" := ExampleProperty] else map[])
  }

  /** The response schema of a topic request: an array of objects with TopicProperties, of which
      term, definition and difficulty are required whatever the flags. */
  function TopicSchema(includeHint: bool, includeExample: bool): (s: ResponseSchema)
    ensures s.typ == ArrayType && s.items.typ == ObjectType
    ensures s.items.required == ["term", "definition", "difficulty"]
    ensures s.items.properties == TopicProperties(includeHint, includeExample)
  {
    ResponseSchema(ArrayType, ItemSchema(ObjectType, TopicProperties(includeHint, includeExample), RequiredFields))
  }

  /** The schema construction of generateFlashcardsFromTopic: a properties dictionary that starts
      with the three mandatory entries and gains `hint` and `example` under their flags. */
  method BuildTopicSchema(includeHint: bool, includeExample: bool) returns (schema: ResponseSchema)
    ensures schema == TopicSchema(includeHint, includeExample)
    ensures "hint" in schema.items.properties <==> includeHint
    ensures "example" in schema.items.properties <==> includeExample
    ensures schema.items.required == ["term", "definition", "difficulty"]
  {
    var properties := map["term" := TermProperty, "definition" := DefinitionProperty, "difficulty" := DifficultyProperty];
    if includeHint {
      properties := properties["hint" := HintProperty];
    }
    if includeExample {
      properties := properties["example" := ExampleProperty];
    }
    schema := ResponseSchema(ArrayType, ItemSchema(ObjectType, properties, RequiredFields));
  }

  /** The request generateFlashcardsFromTopic sends for the given options. */
  function TopicRequest(options: GenerateOptions): (r: GenerateRequest)
    ensures r.temperature == options.temperature && r.count == options.count
    ensures r.difficultyMix == options.difficultyMix
    ensures r.topic == options.topic && r.lang == options.lang && r.bloomLevel == options.bloomLevel
    ensures r.schema == TopicSchema(options.includeHint, options.includeExample)
  {
    GenerateRequest(options.topic, options.count, options.lang, options.bloomLevel, options.difficultyMix,
                    options.temperature, TopicSchema(options.includeHint, options.includeExample))
  }

  const DefineSchema := ResponseSchema(ArrayType, ItemSchema(ObjectType,
    map["term" := Property(StringType, None, None),
        "definition" := Property(StringType, Some("A one-sentence definition (max 25 words)."), None)],
    ["term", "definition"]))

  /** The request defineTerms sends: the terms joined with ", ", and always temperature 0.3. */
  function DefineTermsRequest(terms: seq<string>, lang: Language): (r: DefineRequest)
    ensures r.temperature == DefineTemperature && r.lang == lang
    ensures r.terms == Join(terms, ", ")
    ensures r.schema.items.required == ["term", "definition"]
  {
    DefineRequest(Join(terms, ", "), lang, DefineTemperature, DefineSchema)
  }

  /** The `Array.isArray` check inside the `try` block: anything but an array is thrown. */
  function ArrayOf(reply: Reply, notArray: string): (r: Result<seq<Json>>)
    ensures r.Success? <==> reply.Parsed? && reply.value.JArray?
    ensures r.Success? ==> r.value == reply.value.items
    ensures reply.Unavailable? ==> r == Failure(reply.message)
    ensures reply.Parsed? && !reply.value.JArray? ==> r == Failure(notArray)
  {
    match reply
    case Unavailable(message) => Failure(message)
    case Parsed(v) => if v.JArray? then Success(v.items) else Failure(notArray)
  }

  /** The `catch` block: whatever was thrown is replaced by one fixed message. */
  function Rewrap<T>(res: Result<T>, message: string): (r: Result<T>)
    ensures r.Success? <==> res.Success?
    ensures res.Success? ==> r == res
    ensures r.Failure? ==> r.error == message
  {
    if res.Failure? then Failure(message) else res
  }

  /** The filter's test: a truthy element with a string `term` and a string `definition`. In a
      parsed JSON value only objects have properties, so null, false, 0, "" and arrays fail it. */
  predicate IsCardShaped(j: Json) {
    && j.JObject?
    && "term" in j.fields && j.fields["term"].JString?
    && "definition" in j.fields && j.fields["definition"].JString?
  }

  function StringField(j: Json, key: string): Option<string> {
    if j.JObject? && key in j.fields && j.fields[key].JString? then Some(j.fields[key].s) else None
  }

  function DifficultyField(j: Json): Option<Difficulty> {
    match StringField(j, "difficulty")
    case Some("easy") => Some(Easy)
    case Some("medium") => Some(Medium)
    case Some("hard") => Some(Hard)
    case _ => None
  }

  /** A kept element read as a draft card. */
  function ToDraft(j: Json): Draft {
    Draft(StringField(j, "term").GetOr(""), StringField(j, "definition").GetOr(""),
          StringField(j, "hint"), StringField(j, "example"), DifficultyField(j))
  }

  /** The filter on the returned array. */
  function FilterCards(items: seq<Json>): (r: seq<Draft>)
    ensures |r| <= |items|
    ensures forall d :: d in r ==> exists j :: j in items && IsCardShaped(j) && d == ToDraft(j)
  {
    var kept := Filter(items, IsCardShaped);
    var r := Map(kept, ToDraft);
    assert forall i :: 0 <= i < |r| ==> kept[i] in kept && r[i] == ToDraft(kept[i]);
    r
  }

  /** Filtering keeps the order of the returned array. */
  lemma FilterCardsAppend(a: seq<Json>, b: seq<Json>)
    ensures FilterCards(a + b) == FilterCards(a) + FilterCards(b)
  {
    FilterAppend(a, b, IsCardShaped);
    MapAppend(Filter(a, IsCardShaped), Filter(b, IsCardShaped), ToDraft);
  }

  /** One element is kept exactly when it has a string term and a string definition, empty strings
      included, and then it keeps them. */
  lemma FilterCardsSingle(j: Json)
    ensures FilterCards([j]) == if IsCardShaped(j) then [ToDraft(j)] else []
    ensures IsCardShaped(j) ==> ToDraft(j).term == j.fields["term"].s
                                && ToDraft(j).definition == j.fields["definition"].s
  {
    FilterSingle(j, IsCardShaped);
  }

  /** What generateFlashcardsFromTopic resolves to, given the reply. */
  function GenerateFlashcardsFromTopic(reply: Reply): (r: Result<seq<Draft>>)
    ensures r.Failure? ==> r.error == GenerateFailedMessage
    ensures r.Success? <==> reply.Parsed? && reply.value.JArray?
    ensures r.Success? ==> r.value == FilterCards(reply.value.items)
  {
    var items := ArrayOf(reply, NotArrayMessage);
    Rewrap(if items.Success? then Success(FilterCards(items.value)) else Failure(items.error), GenerateFailedMessage)
  }

  /** What defineTerms resolves to, given the reply: the array as it came, unfiltered. */
  function DefineTerms(reply: Reply): (r: Result<seq<Json>>)
    ensures r.Failure? ==> r.error == DefineFailedMessage
    ensures r.Success? <==> reply.Parsed? && reply.value.JArray?
    ensures r.Success? ==> r.value == reply.value.items
  {
    Rewrap(ArrayOf(reply, NotDefinitionsMessage), DefineFailedMessage)
  }
}
