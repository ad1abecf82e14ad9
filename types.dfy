/** The records and closed enumerations of types.ts. */
module Types {
  import opened Wrappers

  datatype Difficulty = Easy | Medium | Hard {
    function Label(): string {
      match this
      case Easy => "easy"
      case Medium => "medium"
      case Hard => "hard"
    }
  }

  /** Which input the generator works from: a topic, or pasted term/definition pairs. */
  datatype Mode = TopicMode | PairsMode

  /** A flashcard before it is numbered (`Omit<Flashcard, 'id'>`). `hint` and `example` are optional;
      `difficulty` is optional too, because the cards the generator returns are checked only for a
      string `term` and `definition`. */
  datatype Draft = Draft(
    term: string,
    definition: string,
    hint: Option<string>,
    example: Option<string>,
    difficulty: Option<Difficulty>)

  /** A numbered flashcard, as published to the card grid and the exports. */
  datatype Flashcard = Flashcard(
    id: int,
    term: string,
    definition: string,
    hint: Option<string>,
    example: Option<string>,
    difficulty: Option<Difficulty>)
  {
    function Fields(): Draft {
      Draft(term, definition, hint, example, difficulty)
    }
  }

  /** `{ ...draft, id }`. */
  function WithId(d: Draft, id: int): (c: Flashcard)
    ensures c.id == id && c.Fields() == d
  {
    Flashcard(id, d.term, d.definition, d.hint, d.example, d.difficulty)
  }

  /** Percentages of easy, medium and hard cards asked for; meant to add up to 100. */
  datatype DifficultyMix = DifficultyMix(easy: int, medium: int, hard: int) {
    function Total(): int {
      easy + medium + hard
    }
  }

  datatype Language = English | Hindi | Hinglish | Spanish | French | German

  datatype BloomLevel = Remember | Understand | Apply | Analyze | Evaluate | Create
}
