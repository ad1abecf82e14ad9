/** The exports of components/ActionButtons.tsx: CSV with the quoting rules of RFC 4180, section 2
    (items 6 and 7), records separated by LF; and two-column tab-separated text for Anki. A reader
    for the CSV output is given beside the writer, and the two are proved to be inverse. */
module Export {
  import opened Wrappers
  import opened Sequences
  import opened Strings
  import opened Types

  /** `/[",\n]/.test(s)`. A CR alone does not call for quotes. */
  predicate NeedsQuoting(s: string) {
    '"' in s || ',' in s || '\n' in s
  }

  /** `s.replace(/"/g, '""')`. */
  function DoubleQuotes(s: string): (r: string)
    ensures |r| >= |s|
    ensures '"' !in s ==> r == s
  {
    if s == [] then []
    else Doubled(s[0]) + DoubleQuotes(s[1..])
  }

  /** What the replacement makes of one character. */
  function Doubled(c: char): string {
    if c == '"' then "\"\"" else [c]
  }

  /** Doubling adds one character per quote. */
  lemma {:induction false} DoubleQuotesLength(s: string)
    ensures |DoubleQuotes(s)| == |s| + multiset(s)['"']
  {
    if s != [] {
      DoubleQuotesLength(s[1..]);
      assert multiset(s) == multiset([s[0]]) + multiset(s[1..]) by { assert s == [s[0]] + s[1..]; }
    }
  }

  /** Doubling quotes works piecewise. */
  lemma {:induction false} DoubleQuotesAppend(a: string, b: string)
    ensures DoubleQuotes(a + b) == DoubleQuotes(a) + DoubleQuotes(b)
  {
    if a != [] {
      var head := Doubled(a[0]);
      assert (a + b)[0] == a[0] && (a + b)[1..] == a[1..] + b;
      assert DoubleQuotes(a + b) == head + DoubleQuotes(a[1..] + b);
      DoubleQuotesAppend(a[1..], b);
      assert head + (DoubleQuotes(a[1..]) + DoubleQuotes(b)) == (head + DoubleQuotes(a[1..])) + DoubleQuotes(b);
    } else {
      assert a + b == b;
    }
  }

  /** `csvEscape`: nothing for a missing value, the text itself when it has no quote, comma or LF,
      otherwise the text in quotes with its quotes doubled. */
  function CsvEscape(val: Option<string>): (r: string)
    ensures val.None? ==> r == ""
    ensures val.Some? && !NeedsQuoting(val.value) ==> r == val.value
    ensures val.Some? && NeedsQuoting(val.value) ==> |r| >= |val.value| + 2 && r[0] == '"' && r[|r| - 1] == '"'
  {
    match val
    case None => ""
    case Some(s) => if NeedsQuoting(s) then "\"" + DoubleQuotes(s) + "\"" else s
  }

  /** A quoted value is longer than its text by its two outer quotes and one per inner quote. */
  lemma CsvEscapeLength(v: string)
    requires NeedsQuoting(v)
    ensures |CsvEscape(Some(v))| == |v| + 2 + multiset(v)['"']
  {
    DoubleQuotesLength(v);
  }

  /** The text a reader recovers from an escaped value. */
  function FieldText(val: Option<string>): string {
    val.GetOr("")
  }

  /** The columns, in order. */
  const Header: seq<string> := ["term", "definition", "hint", "example", "difficulty"]

  function DifficultyText(d: Option<Difficulty>): Option<string> {
    match d
    case None => None
    case Some(x) => Some(x.Label())
  }

  /** `header.map((h) => r[h])`. */
  function RowValues(c: Flashcard): seq<Option<string>> {
    [Some(c.term), Some(c.definition), c.hint, c.example, DifficultyText(c.difficulty)]
  }

  /** One record: the escaped values joined by commas. */
  function Row(c: Flashcard): (r: string)
    ensures ReadRecord(r) == (RowText(c), [])
  {
    var r := Join(Map(RowValues(c), CsvEscape), ",");
    ReadEscapedRecord(RowValues(c), []);
    assert r + [] == r;
    r
  }

  /** `toCSV`: the header line, LF, then the records joined by LF. */
  function ToCSV(cards: seq<Flashcard>): (r: string)
    ensures Join(Header, ",") + "\n" <= r
    ensures r == Join(Header, ",") + "\n" <==> cards == []
  {
    var body := Join(Map(cards, Row), "\n");
    assert cards != [] ==> body != [] by {
      if cards != [] {
        RowNotEmpty(cards[0]);
      }
    }
    Join(Header, ",") + "\n" + body
  }

  /** The header line names the five columns in order. */
  lemma HeaderLine()
    ensures Join(Header, ",") == "term" + "," + "definition" + "," + "hint" + "," + "example" + "," + "difficulty"
  {
    assert Join(Header[4..], ",") == "difficulty";
    assert Join(Header[3..], ",") == "example" + "," + "difficulty";
    assert Join(Header[2..], ",") == "hint" + "," + ("example" + "," + "difficulty");
    assert Join(Header[1..], ",") == "definition" + "," + ("hint" + "," + ("example" + "," + "difficulty"));
  }

  /** Without cards the output is the header and its LF. */
  lemma ToCSVEmpty()
    ensures ToCSV([]) == "term" + "," + "definition" + "," + "hint" + "," + "example" + "," + "difficulty" + "\n"
  {
    HeaderLine();
    assert Join(Map([], Row), "\n") == [];
  }

  // ---- Reading CSV back, as RFC 4180 section 2 describes it (with LF as the record end) ----

  /** The rest of a quoted field after its opening quote: `""` stands for one quote and a lone `"`
      closes the field. Gives the field's text and what follows the closing quote. */
  function ReadQuoted(s: string): (r: (string, string))
    ensures |r.1| <= |s|
  {
    if s == [] then ([], [])
    else if s[0] == '"' then
      if |s| > 1 && s[1] == '"' then
        var r := ReadQuoted(s[2..]);
        (['"'] + r.0, r.1)
      else ([], s[1..])
    else
      var r := ReadQuoted(s[1..]);
      ([s[0]] + r.0, r.1)
  }

  /** An unquoted field runs to the next comma or LF. */
  function ReadPlain(s: string): (r: (string, string))
    ensures |r.1| <= |s|
    ensures s != [] && s[0] != ',' && s[0] != '\n' ==> |r.1| < |s|
  {
    if s == [] || s[0] == ',' || s[0] == '\n' then ([], s)
    else
      var r := ReadPlain(s[1..]);
      ([s[0]] + r.0, r.1)
  }

  function ReadField(s: string): (r: (string, string))
    ensures |r.1| <= |s|
    ensures s != [] && s[0] != ',' && s[0] != '\n' ==> |r.1| < |s|
  {
    if s != [] && s[0] == '"' then ReadQuoted(s[1..]) else ReadPlain(s)
  }

  /** The fields of one record, and the text after its LF. */
  function ReadRecord(s: string): (r: (seq<string>, string))
    ensures |r.1| <= |s|
    ensures s != [] ==> |r.1| < |s|
    decreases |s|
  {
    var field, rest := ReadField(s).0, ReadField(s).1;
    if rest != [] && rest[0] == ',' then
      var r := ReadRecord(rest[1..]);
      ([field] + r.0, r.1)
    else if rest != [] && rest[0] == '\n' then ([field], rest[1..])
    else ([field], rest)
  }

  /** All records of a document. */
  function ReadDocument(s: string): seq<seq<string>>
    decreases |s|
  {
    if s == [] then []
    else
      var r := ReadRecord(s);
      [r.0] + ReadDocument(r.1)
  }

  lemma ReadQuotedPair(tail: string)
    ensures ReadQuoted("\"\"" + tail) == (['"'] + ReadQuoted(tail).0, ReadQuoted(tail).1)
  {
    assert ("\"\"" + tail)[2..] == tail;
  }

  lemma ReadQuotedChar(c: char, tail: string)
    requires c != '"'
    ensures ReadQuoted([c] + tail) == ([c] + ReadQuoted(tail).0, ReadQuoted(tail).1)
  {
    assert ([c] + tail)[1..] == tail;
  }

  lemma DoubleQuotesCons(s: string)
    requires s != []
    ensures DoubleQuotes(s) == (if s[0] == '"' then "\"\"" else [s[0]]) + DoubleQuotes(s[1..])
  {
  }

  lemma ReadQuotedPairStep(s: string, tail: string)
    requires s != [] && s[0] == '"'
    requires DoubleQuotes(s) == "\"\"" + DoubleQuotes(s[1..])
    ensures DoubleQuotes(s) + tail == "\"\"" + (DoubleQuotes(s[1..]) + tail)
    ensures ReadQuoted(DoubleQuotes(s) + tail) == (['"'] + ReadQuoted(DoubleQuotes(s[1..]) + tail).0, ReadQuoted(DoubleQuotes(s[1..]) + tail).1)
  {
    ReadQuotedPair(DoubleQuotes(s[1..]) + tail);
  }

  lemma ReadQuotedCharStep(s: string, tail: string)
    requires s != [] && s[0] != '"'
    requires DoubleQuotes(s) == [s[0]] + DoubleQuotes(s[1..])
    ensures DoubleQuotes(s) + tail == [s[0]] + (DoubleQuotes(s[1..]) + tail)
    ensures ReadQuoted(DoubleQuotes(s) + tail) == ([s[0]] + ReadQuoted(DoubleQuotes(s[1..]) + tail).0, ReadQuoted(DoubleQuotes(s[1..]) + tail).1)
  {
    ReadQuotedChar(s[0], DoubleQuotes(s[1..]) + tail);
  }

  /** Chaining the reads of two consecutive pieces. */
  lemma ChainRead(whole: (string, string), after: (string, string), head: string, read: string, rest: string)
    requires whole == (head + after.0, after.1)
    ensures after == (read, rest) ==> whole == (head + read, rest)
  {
  }

  /** Reading past the doubled leading character of `s`. */
  lemma ReadQuotedDoubledHead(s: string, tail: string)
    requires s != []
    ensures ReadQuoted(DoubleQuotes(s) + tail)
            == ([s[0]] + ReadQuoted(DoubleQuotes(s[1..]) + tail).0, ReadQuoted(DoubleQuotes(s[1..]) + tail).1)
  {
    DoubleQuotesCons(s);
    if s[0] == '"' {
      ReadQuotedPairStep(s, tail);
    } else {
      ReadQuotedCharStep(s, tail);
    }
  }

  /** Reading doubled-quote text consumes it and gives back the original text, whatever follows. */
  lemma {:induction false} ReadQuotedAfterDoubled(s: string, tail: string)
    ensures ReadQuoted(DoubleQuotes(s) + tail) == (s + ReadQuoted(tail).0, ReadQuoted(tail).1)
  {
    if s == [] {
      assert DoubleQuotes(s) + tail == tail;
      assert s + ReadQuoted(tail).0 == ReadQuoted(tail).0;
    } else {
      var d1 := DoubleQuotes(s[1..]) + tail;
      ReadQuotedAfterDoubled(s[1..], tail);
      ReadQuotedDoubledHead(s, tail);
      ChainRead(ReadQuoted(DoubleQuotes(s) + tail), ReadQuoted(d1), [s[0]], s[1..] + ReadQuoted(tail).0, ReadQuoted(tail).1);
      assert [s[0]] + (s[1..] + ReadQuoted(tail).0) == s + ReadQuoted(tail).0 by {
        assert s == [s[0]] + s[1..];
      }
    }
  }

  /** Reading a quoted field gives back the text whose quotes were doubled. */
  lemma ReadQuotedDoubled(s: string, rest: string)
    requires rest == [] || rest[0] != '"'
    ensures ReadQuoted(DoubleQuotes(s) + "\"" + rest) == (s, rest)
  {
    ReadQuotedAfterDoubled(s, "\"" + rest);
    assert DoubleQuotes(s) + "\"" + rest == DoubleQuotes(s) + ("\"" + rest);
    assert ("\"" + rest)[1..] == rest;
    assert s + [] == s;
  }

  /** Reading an unquoted field stops exactly at the comma or LF that ends it. */
  lemma {:induction false} ReadPlainText(s: string, rest: string)
    requires ',' !in s && '\n' !in s
    requires rest == [] || rest[0] == ',' || rest[0] == '\n'
    ensures ReadPlain(s + rest) == (s, rest)
  {
    if s != [] {
      assert (s + rest)[0] == s[0] && (s + rest)[1..] == s[1..] + rest;
      ReadPlainText(s[1..], rest);
      assert s == [s[0]] + s[1..];
    } else {
      assert s + rest == rest;
    }
  }

  /** Escaping and reading back gives the value's text, and stops where the field ends. */
  lemma ReadEscapedField(val: Option<string>, rest: string)
    requires rest == [] || rest[0] == ',' || rest[0] == '\n'
    ensures ReadField(CsvEscape(val) + rest) == (FieldText(val), rest)
  {
    var e := CsvEscape(val);
    if val.Some? && NeedsQuoting(val.value) {
      assert e + rest == "\"" + (DoubleQuotes(val.value) + "\"" + rest);
      ReadQuotedDoubled(val.value, rest);
    } else {
      ReadPlainText(e, rest);
      assert e != [] ==> e[0] != '"';
    }
  }

  /** A record's first field, then a comma: reading goes on with the next field. */
  lemma ReadRecordComma(e: string, val: Option<string>, tail: string)
    requires e == CsvEscape(val)
    ensures ReadRecord(e + "," + tail) == ([FieldText(val)] + ReadRecord(tail).0, ReadRecord(tail).1)
  {
    assert e + "," + tail == e + ("," + tail);
    ReadEscapedField(val, "," + tail);
    assert ("," + tail)[1..] == tail;
  }

  /** A record's last field: reading stops after the LF, or at the end. */
  lemma ReadRecordLast(e: string, val: Option<string>, rest: string)
    requires e == CsvEscape(val)
    requires rest == [] || rest[0] == '\n'
    ensures ReadRecord(e + rest) == ([FieldText(val)], if rest == [] then [] else rest[1..])
  {
    ReadEscapedField(val, rest);
  }

  /** A whole record read back: the text of each value, and what follows the record's LF. */
  lemma {:induction false} ReadEscapedRecord(vals: seq<Option<string>>, rest: string)
    requires |vals| >= 1
    requires rest == [] || rest[0] == '\n'
    ensures ReadRecord(Join(Map(vals, CsvEscape), ",") + rest)
            == (Map(vals, FieldText), if rest == [] then [] else rest[1..])
  {
    var escaped := Map(vals, CsvEscape);
    assert Map(vals, FieldText) == [FieldText(vals[0])] + Map(vals[1..], FieldText);
    if |vals| == 1 {
      assert Join(escaped, ",") == CsvEscape(vals[0]);
      assert Map(vals, FieldText) == [FieldText(vals[0])];
      ReadRecordLast(CsvEscape(vals[0]), vals[0], rest);
    } else {
      var tail := Join(Map(vals[1..], CsvEscape), ",");
      assert escaped[1..] == Map(vals[1..], CsvEscape);
      assert Join(escaped, ",") + rest == CsvEscape(vals[0]) + "," + (tail + rest);
      ReadRecordComma(CsvEscape(vals[0]), vals[0], tail + rest);
      ReadEscapedRecord(vals[1..], rest);
    }
  }

  /** The text of each column of a card, as a reader sees it. */
  function RowText(c: Flashcard): seq<string> {
    Map(RowValues(c), FieldText)
  }

  /** A record is never empty: it holds the commas between its five values. */
  lemma RowNotEmpty(c: Flashcard)
    ensures Row(c) != []
  {
    assert Row(c) == CsvEscape(RowValues(c)[0]) + "," + Join(Map(RowValues(c), CsvEscape)[1..], ",");
  }

  /** A record followed by LF and more text reads as its values, then the rest of the document. */
  lemma ReadRowThenMore(c: Flashcard, tail: string)
    ensures ReadDocument(Row(c) + ("\n" + tail)) == [RowText(c)] + ReadDocument(tail)
  {
    ReadEscapedRecord(RowValues(c), "\n" + tail);
    assert ("\n" + tail)[1..] == tail;
  }

  /** The last record reads as its values. */
  lemma ReadLastRow(c: Flashcard)
    ensures ReadDocument(Row(c)) == [RowText(c)]
  {
    RowNotEmpty(c);
    ReadEscapedRecord(RowValues(c), []);
    assert Row(c) + [] == Row(c);
  }

  /** Records joined by LF read back one by one. */
  lemma {:induction false} ReadRows(cards: seq<Flashcard>)
    requires cards != []
    ensures ReadDocument(Join(Map(cards, Row), "\n")) == Map(cards, RowText)
  {
    var c := cards[0];
    if |cards| == 1 {
      ReadLastRow(c);
    } else {
      var rows := Map(cards, Row);
      MapCons(cards, Row);
      MapCons(cards, RowText);
      JoinHead(rows, "\n");
      ReadRows(cards[1..]);
      ReadRowThenRest(c, Join(rows, "\n"), Join(rows[1..], "\n"), Map(cards[1..], RowText));
    }
  }

  /** A record, LF, then text that reads as `texts`: the record's values come first. */
  lemma ReadRowThenRest(c: Flashcard, whole: string, tail: string, texts: seq<seq<string>>)
    requires whole == Row(c) + ("\n" + tail)
    requires ReadDocument(tail) == texts
    ensures ReadDocument(whole) == [RowText(c)] + texts
  {
    ReadRowThenMore(c, tail);
  }

  /** Names without quote, comma or LF, joined by commas, read back as themselves. */
  lemma {:induction false} ReadPlainRecord(names: seq<string>, rest: string)
    requires |names| >= 1
    requires forall i :: 0 <= i < |names| ==> '"' !in names[i] && ',' !in names[i] && '\n' !in names[i]
    requires rest == [] || rest[0] == '\n'
    ensures ReadRecord(Join(names, ",") + rest) == (names, if rest == [] then [] else rest[1..])
  {
    var vals := Map(names, HeaderValue);
    forall i | 0 <= i < |names| ensures CsvEscape(vals[i]) == names[i] && FieldText(vals[i]) == names[i] {
      assert !NeedsQuoting(names[i]);
    }
    assert Map(vals, CsvEscape) == names;
    assert Map(vals, FieldText) == names;
    ReadEscapedRecord(vals, rest);
  }

  function HeaderValue(name: string): Option<string> {
    Some(name)
  }

  lemma ReadHeader(body: string)
    ensures ReadRecord(Join(Header, ",") + ("\n" + body)) == (Header, body)
  {
    assert forall i :: 0 <= i < |Header| ==> '"' !in Header[i] && ',' !in Header[i] && '\n' !in Header[i];
    ReadPlainRecord(Header, "\n" + body);
    assert ("\n" + body)[1..] == body;
  }

  /** Reading the CSV export back gives the header and then, card by card, the text of its five
      columns; a missing hint, example or difficulty reads as the empty field. */
  lemma CsvRoundTrip(cards: seq<Flashcard>)
    ensures ReadDocument(ToCSV(cards)) == [Header] + Map(cards, RowText)
  {
    assert ToCSV(cards) == Join(Header, ",") + ("\n" + Join(Map(cards, Row), "\n"));
    ReadHeaderThenRows(cards, Join(Map(cards, Row), "\n"));
  }

  lemma ReadHeaderThenRows(cards: seq<Flashcard>, body: string)
    requires body == Join(Map(cards, Row), "\n")
    ensures ReadDocument(Join(Header, ",") + ("\n" + body)) == [Header] + Map(cards, RowText)
  {
    ReadHeader(body);
    if cards != [] {
      ReadRows(cards);
    }
  }

  // ---- Tab-separated export ----

  /** `(s || "").replace(/\t/g, " ")`. */
  function Detab(s: string): (r: string)
    ensures '\t' !in r && |r| == |s|
    ensures forall i :: 0 <= i < |s| ==> r[i] == if s[i] == '\t' then ' ' else s[i]
  {
    ReplaceChar(s, '\t', ' ')
  }

  function TsvRow(c: Flashcard): string {
    Detab(c.term) + "\t" + Detab(c.definition)
  }

  /** `toTSVForAnki`: one `term<TAB>definition` line per card, no header. */
  function ToTSVForAnki(cards: seq<Flashcard>): (r: string)
    ensures r == [] <==> cards == []
  {
    var r := Join(Map(cards, TsvRow), "\n");
    assert cards != [] ==> r != [] by {
      if cards != [] {
        assert Map(cards, TsvRow)[0] == TsvRow(cards[0]);
      }
    }
    r
  }

  /** The export holds exactly one tab per card. */
  lemma {:induction false} TsvTabCount(cards: seq<Flashcard>)
    ensures multiset(ToTSVForAnki(cards))['\t'] == |cards|
  {
    if cards != [] {
      var c := cards[0];
      assert multiset(TsvRow(c))['\t'] == 1 by {
        assert multiset(TsvRow(c)) == multiset(Detab(c.term)) + multiset{'\t'} + multiset(Detab(c.definition));
      }
      if |cards| > 1 {
        TsvTabCount(cards[1..]);
        assert Map(cards, TsvRow)[1..] == Map(cards[1..], TsvRow);
        assert ToTSVForAnki(cards) == TsvRow(c) + "\n" + ToTSVForAnki(cards[1..]);
      }
    }
  }

  /** A line cut at its tab gives back the two fields, with their own tabs turned into spaces. */
  lemma TsvRowFields(c: Flashcard)
    ensures Split(TsvRow(c), '\t') == [Detab(c.term), Detab(c.definition)]
  {
    SplitAppend(Detab(c.term), '\t', Detab(c.definition));
    SplitWithoutSeparator(Detab(c.term), '\t');
    SplitWithoutSeparator(Detab(c.definition), '\t');
  }

  /** When no term or definition holds a line break, the export's lines are the cards' lines, in
      order. */
  lemma TsvLines(cards: seq<Flashcard>)
    requires cards != []
    requires forall i :: 0 <= i < |cards| ==> '\n' !in cards[i].term && '\n' !in cards[i].definition
    ensures Split(ToTSVForAnki(cards), '\n') == Map(cards, TsvRow)
  {
    var rows := Map(cards, TsvRow);
    forall i | 0 <= i < |rows| ensures '\n' !in rows[i] {
      assert rows[i] == Detab(cards[i].term) + "\t" + Detab(cards[i].definition);
    }
    SplitJoin(rows, '\n');
  }
}
