/** `parsePairs` of App.tsx: pasted text to one draft card per non-blank line. */
module Pairs {
  import opened Wrappers
  import opened Sequences
  import opened Strings
  import opened Types

  /** The card a pasted line yields: no hint or example (empty strings) and medium difficulty. */
  function PairRecord(term: string, definition: string): Draft {
    Draft(term, definition, Some(""), Some(""), Some(Medium))
  }

  /** The line cut at `idx`: the trimmed text before it is the term, the trimmed text after it
      the definition. */
  function SplitAt(line: string, idx: nat): Draft
    requires idx < |line|
  {
    PairRecord(Trim(line[..idx]), Trim(line[idx + 1..]))
  }

  /** One trimmed line. The delimiters are tried in priority order `:`, `-`, `,`, each looked for
      anywhere in the line, and the line is cut at the first occurrence of the chosen one. */
  function ParseLine(line: string): (r: Draft)
    ensures r.hint == Some("") && r.example == Some("") && r.difficulty == Some(Medium)
    ensures IsTrimmed(r.term) && IsTrimmed(r.definition)
  {
    if ':' in line then SplitAt(line, FirstIndex(line, ':'))
    else if '-' in line then SplitAt(line, FirstIndex(line, '-'))
    else if ',' in line then SplitAt(line, FirstIndex(line, ','))
    else PairRecord(Trim(line), "")
  }

  /** `filter(Boolean)` on strings: only the empty string is dropped. */
  function NonBlank(line: string): (r: bool)
    ensures IsTrimmed(line) ==> (r <==> !AllSpace(line))
  {
    line != []
  }

  /** Split into lines at `\r?\n`, trim each, drop the empty ones, parse the rest. */
  function ParsePairs(text: string): (r: seq<Draft>)
    ensures forall i :: 0 <= i < |r| ==> r[i].hint == Some("") && r[i].example == Some("") && r[i].difficulty == Some(Medium)
  {
    Map(Filter(Map(SplitLines(text), Trim), NonBlank), ParseLine)
  }

  /** A line with a `:` is cut at its first `:`, even when a `-` or `,` comes earlier; everything
      after that `:`, later delimiters included, is the definition. */
  lemma ParseLineColon(before: string, after: string)
    requires ':' !in before
    ensures ParseLine(before + [':'] + after) == PairRecord(Trim(before), Trim(after))
  {
    var line := before + [':'] + after;
    assert line[|before|] == ':';
    FirstIndexOf(before, ':', after);
    assert line[..|before|] == before && line[|before| + 1..] == after;
  }

  /** Without any `:`, a line with a `-` is cut at its first `-`. */
  lemma ParseLineDash(before: string, after: string)
    requires ':' !in before && ':' !in after
    requires '-' !in before
    ensures ParseLine(before + ['-'] + after) == PairRecord(Trim(before), Trim(after))
  {
    var line := before + ['-'] + after;
    assert line[|before|] == '-';
    assert ':' !in line;
    FirstIndexOf(before, '-', after);
    assert line[..|before|] == before && line[|before| + 1..] == after;
  }

  /** With neither `:` nor `-`, a line with a `,` is cut at its first `,`. */
  lemma ParseLineComma(before: string, after: string)
    requires ':' !in before && ':' !in after
    requires '-' !in before && '-' !in after
    requires ',' !in before
    ensures ParseLine(before + [','] + after) == PairRecord(Trim(before), Trim(after))
  {
    var line := before + [','] + after;
    assert line[|before|] == ',';
    assert ':' !in line && '-' !in line;
    FirstIndexOf(before, ',', after);
    assert line[..|before|] == before && line[|before| + 1..] == after;
  }

  /** A line with no delimiter is all term, with an empty definition. */
  lemma ParseLineNoDelimiter(line: string)
    requires ':' !in line && '-' !in line && ',' !in line
    ensures ParseLine(line) == PairRecord(Trim(line), "")
  {
  }

  /** Text without a line break is one line: it yields one card, unless it is blank. */
  lemma ParsePairsLine(line: string)
    requires '\n' !in line
    ensures ParsePairs(line) == if Trim(line) == [] then [] else [ParseLine(Trim(line))]
  {
    var t := Trim(line);
    TrimmedLines(line);
    SplitWithoutSeparator(line, '\n');
    MapSingle(line, Trim);
    FilterSingle(t, NonBlank);
    MapSingle(t, ParseLine);
  }

  /** A line break separates the cards of the text before it from those of the text after it:
      together with ParsePairsLine, one card per non-blank line, in input order. */
  lemma ParsePairsAppend(a: string, b: string)
    ensures ParsePairs(a + ['\n'] + b) == ParsePairs(a) + ParsePairs(b)
  {
    TrimmedLines(a + ['\n'] + b);
    TrimmedLines(a);
    TrimmedLines(b);
    SplitAppend(a, '\n', b);
    MapAppend(Split(a, '\n'), Split(b, '\n'), Trim);
    var ta, tb := Map(Split(a, '\n'), Trim), Map(Split(b, '\n'), Trim);
    FilterAppend(ta, tb, NonBlank);
    MapAppend(Filter(ta, NonBlank), Filter(tb, NonBlank), ParseLine);
  }
}
