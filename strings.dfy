/** The string primitives the source takes from JavaScript: `trim`, `indexOf`, `split`, `join`,
    `toLowerCase` and single-character `replace`. Strings are sequences of characters. */
module Strings {
  import opened Sequences

  /** White space as `String.prototype.trim` strips it: the ASCII spaces and line terminators
      and the common Unicode spaces. Carriage return is one of them. */
  predicate IsSpace(c: char) {
    c == ' ' || c == '\t' || c == '\n' || c == '\r' || c == '\U{0B}' || c == '\U{0C}'
    || c == '\U{A0}' || c == '\U{FEFF}' || c == '\U{2028}' || c == '\U{2029}'
  }

  /** No white space at either end. */
  predicate IsTrimmed(s: string) {
    s == [] || (!IsSpace(s[0]) && !IsSpace(s[|s| - 1]))
  }

  function TrimStart(s: string): (r: string)
    ensures |r| <= |s| && r == s[|s| - |r|..]
    ensures r == [] || !IsSpace(r[0])
    ensures forall i :: 0 <= i < |s| - |r| ==> IsSpace(s[i])
  {
    if s != [] && IsSpace(s[0]) then TrimStart(s[1..]) else s
  }

  function TrimEnd(s: string): (r: string)
    ensures |r| <= |s| && r == s[..|r|]
    ensures r == [] || !IsSpace(r[|r| - 1])
    ensures forall i :: |r| <= i < |s| ==> IsSpace(s[i])
  {
    if s != [] && IsSpace(s[|s| - 1]) then TrimEnd(s[..|s| - 1]) else s
  }

  /** Nothing but white space. */
  predicate AllSpace(t: string) {
    forall i :: 0 <= i < |t| ==> IsSpace(t[i])
  }

  /** `s.trim()`: the longest infix of `s` that neither starts nor ends with white space. */
  function Trim(s: string): (r: string)
    ensures IsTrimmed(r) && |r| <= |s|
    ensures r == [] <==> AllSpace(s)
  {
    var e := TrimEnd(s);
    TrimEndThenStart(s, e);
    TrimStart(e)
  }

  /** Trimming cuts white space, and only white space, from the two ends: the result is an infix
      of the input with nothing but white space before and after it. */
  lemma TrimInfix(s: string)
    ensures var r := Trim(s);
            exists k :: 0 <= k <= |s| - |r| && r == s[k..k + |r|] && AllSpace(s[..k]) && AllSpace(s[k + |r|..])
  {
    TrimEndThenStartSlice(s, TrimEnd(s), Trim(s));
  }

  /** Stripping the end, then the start, leaves the ends non-white, and leaves nothing exactly
      when every character was white space. */
  lemma TrimEndThenStart(s: string, e: string)
    requires e == TrimEnd(s)
    ensures IsTrimmed(TrimStart(e))
    ensures TrimStart(e) == [] <==> AllSpace(s)
  {
    var r := TrimStart(e);
    if r == [] {
      forall i | 0 <= i < |s| ensures IsSpace(s[i]) {
        if i < |e| { assert s[i] == e[i]; }
      }
    } else {
      assert r[|r| - 1] == e[|e| - 1];
      assert !IsSpace(s[|e| - |r|]) by { assert r[0] == e[|e| - |r|] == s[|e| - |r|]; }
    }
  }

  /** A suffix of a prefix is an infix. */
  lemma InfixOfPrefix(s: string, e: string, r: string, k: nat)
    requires |e| <= |s| && e == s[..|e|] && k + |r| == |e| && r == e[k..]
    ensures r == s[k..k + |r|]
  {
  }

  /** The first `k` characters of a prefix are those of the whole. */
  lemma PrefixAllSpace(s: string, e: string, k: nat)
    requires |e| <= |s| && e == s[..|e|] && k <= |e|
    requires forall i :: 0 <= i < k ==> IsSpace(e[i])
    ensures AllSpace(s[..k])
  {
    assert forall i :: 0 <= i < k ==> s[..k][i] == e[i];
  }

  lemma SuffixAllSpace(s: string, n: nat)
    requires n <= |s| && forall i :: n <= i < |s| ==> IsSpace(s[i])
    ensures AllSpace(s[n..])
  {
    assert forall i :: 0 <= i < |s| - n ==> s[n..][i] == s[n + i];
  }

  /** A white-space suffix cut from `s`, then a white-space prefix cut from the rest, leave an
      infix of `s` between two runs of white space. */
  lemma InfixBetweenSpaces(s: string, e: string, r: string)
    requires |e| <= |s| && e == s[..|e|] && AllSpace(s[|e|..])
    requires |r| <= |e| && r == e[|e| - |r|..] && forall i :: 0 <= i < |e| - |r| ==> IsSpace(e[i])
    ensures exists k :: 0 <= k <= |s| - |r| && r == s[k..k + |r|] && AllSpace(s[..k]) && AllSpace(s[k + |r|..])
  {
    var k := |e| - |r|;
    InfixOfPrefix(s, e, r, k);
    PrefixAllSpace(s, e, k);
  }

  /** Stripping the end, then the start, cuts only white space, from the two ends. */
  lemma TrimEndThenStartSlice(s: string, e: string, r: string)
    requires e == TrimEnd(s) && r == TrimStart(e)
    ensures exists k :: 0 <= k <= |s| - |r| && r == s[k..k + |r|] && AllSpace(s[..k]) && AllSpace(s[k + |r|..])
  {
    SuffixAllSpace(s, |e|);
    InfixBetweenSpaces(s, e, r);
  }

  /** Trimming changes nothing on a string that is already trimmed. */
  lemma TrimTrimmed(s: string)
    requires IsTrimmed(s)
    ensures Trim(s) == s
  {
  }

  lemma TrimIdempotent(s: string)
    ensures Trim(Trim(s)) == Trim(s)
  {
    TrimTrimmed(Trim(s));
  }

  /** A trailing white-space character, such as the `\r` of a CRLF line end, does not survive `trim`. */
  lemma TrimDropsTrailingSpace(s: string, c: char)
    requires IsSpace(c)
    ensures Trim(s + [c]) == Trim(s)
  {
    assert (s + [c])[..|s|] == s;
  }

  /** Below a leading white-space character, `TrimEnd` works on the rest alone, unless the rest
      is all white space. */
  lemma {:induction false} TrimEndCons(c: char, s: string)
    requires TrimEnd(s) != []
    ensures TrimEnd([c] + s) == [c] + TrimEnd(s)
  {
    var n := |s| - 1;
    var cs := [c] + s;
    assert cs[|cs| - 1] == s[n];
    if IsSpace(s[n]) {
      assert cs[..|s|] == [c] + s[..n];
      TrimEndCons(c, s[..n]);
    }
  }

  /** A leading white-space character does not survive `trim`. */
  lemma TrimDropsLeadingSpace(c: char, s: string)
    requires IsSpace(c)
    ensures Trim([c] + s) == Trim(s)
  {
    if forall i :: 0 <= i < |s| ==> IsSpace(s[i]) {
      assert forall i :: 0 <= i < |[c] + s| ==> IsSpace(([c] + s)[i]) by {
        forall i | 0 <= i < |[c] + s| ensures IsSpace(([c] + s)[i]) {
          if i > 0 { assert ([c] + s)[i] == s[i - 1]; }
        }
      }
    } else {
      TrimEndCons(c, s);
      assert ([c] + TrimEnd(s))[1..] == TrimEnd(s);
    }
  }

  /** `s.indexOf(c)` for a character known to occur. */
  function FirstIndex(s: string, c: char): (i: nat)
    requires c in s
    ensures i < |s| && s[i] == c
    ensures forall k :: 0 <= k < i ==> s[k] != c
  {
    if s[0] == c then 0 else 1 + FirstIndex(s[1..], c)
  }

  /** The first occurrence is found however the rest of the string continues. */
  lemma {:induction false} FirstIndexOf(prefix: string, c: char, suffix: string)
    requires c !in prefix
    ensures FirstIndex(prefix + [c] + suffix, c) == |prefix|
  {
    var s := prefix + [c] + suffix;
    if prefix != [] {
      assert s[0] == prefix[0];
      assert s[1..] == prefix[1..] + [c] + suffix;
      FirstIndexOf(prefix[1..], c, suffix);
    }
  }

  /** `s.split(d)` for a one-character separator, read from left to right. */
  function Split(s: string, d: char): (r: seq<string>)
    ensures |r| >= 1
    ensures forall i :: 0 <= i < |r| ==> d !in r[i]
  {
    if s == [] then [[]]
    else
      var rest := Split(s[1..], d);
      if s[0] == d then [[]] + rest else [[s[0]] + rest[0]] + rest[1..]
  }

  /** `s.split(/\r?\n/)`: a line ends at LF, and a CR just before that LF belongs to the line end. */
  function SplitLines(s: string): (r: seq<string>)
    ensures |r| >= 1
    ensures forall i :: 0 <= i < |r| ==> '\n' !in r[i]
  {
    if s == [] then [[]]
    else if s[0] == '\n' then [[]] + SplitLines(s[1..])
    else if s[0] == '\r' && |s| > 1 && s[1] == '\n' then [[]] + SplitLines(s[2..])
    else
      var rest := SplitLines(s[1..]);
      [[s[0]] + rest[0]] + rest[1..]
  }

  /** `parts.join(sep)`. */
  function Join(parts: seq<string>, sep: string): (r: string)
    ensures |parts| == 1 ==> r == parts[0]
    ensures parts == [] ==> r == []
  {
    if parts == [] then []
    else if |parts| == 1 then parts[0]
    else parts[0] + sep + Join(parts[1..], sep)
  }

  /** A string without the separator is a single piece. */
  lemma {:induction false} SplitWithoutSeparator(s: string, d: char)
    requires d !in s
    ensures Split(s, d) == [s]
  {
    if s != [] {
      assert s[0] != d;
      SplitWithoutSeparator(s[1..], d);
      assert s == [s[0]] + s[1..];
    }
  }

  /** A separator splits the text into the pieces of its two sides. */
  lemma {:induction false} SplitAppend(a: string, d: char, b: string)
    ensures Split(a + [d] + b, d) == Split(a, d) + Split(b, d)
  {
    var s := a + [d] + b;
    if a == [] {
      assert s[1..] == b;
    } else {
      assert s[0] == a[0];
      assert s[1..] == a[1..] + [d] + b;
      SplitAppend(a[1..], d, b);
    }
  }

  /** Splitting at a separator and re-joining with it gives back the string. */
  lemma {:induction false} JoinSplit(s: string, d: char)
    ensures Join(Split(s, d), [d]) == s
  {
    if s != [] {
      var rest := Split(s[1..], d);
      JoinSplit(s[1..], d);
      if s[0] == d {
        assert Split(s, d) == [[]] + rest;
        JoinHead([[]] + rest, [d]);
      } else {
        assert Split(s, d) == [[s[0]] + rest[0]] + rest[1..];
        JoinCons(rest, s[0], [d]);
      }
      assert s == [s[0]] + s[1..];
    }
  }

  /** A join of two or more pieces is the first piece, the separator and the join of the rest. */
  lemma JoinHead(parts: seq<string>, sep: string)
    requires |parts| > 1
    ensures Join(parts, sep) == parts[0] + (sep + Join(parts[1..], sep))
  {
  }

  /** A character put in front of the first piece ends up in front of the join. */
  lemma JoinCons(parts: seq<string>, c: char, sep: string)
    requires |parts| >= 1
    ensures Join([[c] + parts[0]] + parts[1..], sep) == [c] + Join(parts, sep)
  {
    var q := [[c] + parts[0]] + parts[1..];
    if |parts| > 1 {
      assert q[1..] == parts[1..];
      JoinHead(q, sep);
      JoinHead(parts, sep);
    }
  }

  /** Joining pieces that do not contain the separator and splitting again gives back the pieces. */
  lemma {:induction false} SplitJoin(parts: seq<string>, d: char)
    requires |parts| >= 1
    requires forall i :: 0 <= i < |parts| ==> d !in parts[i]
    ensures Split(Join(parts, [d]), d) == parts
  {
    SplitWithoutSeparator(parts[0], d);
    if |parts| > 1 {
      SplitJoin(parts[1..], d);
      SplitAppend(parts[0], d, Join(parts[1..], [d]));
      assert parts == [parts[0]] + parts[1..];
    }
  }

  /** Line by line, each piece is the line, or the line followed by the CR that stood before
      its LF. */
  predicate LinesMatch(lines: seq<string>, pieces: seq<string>) {
    && |lines| == |pieces|
    && forall i :: 0 <= i < |lines| ==> pieces[i] == lines[i] || pieces[i] == lines[i] + ['\r']
  }

  lemma LinesMatchEmpty(lines: seq<string>, pieces: seq<string>, first: string)
    requires LinesMatch(lines, pieces)
    requires first == [] || first == ['\r']
    ensures LinesMatch([[]] + lines, [first] + pieces)
  {
    assert forall i :: 1 <= i <= |lines| ==> ([[]] + lines)[i] == lines[i - 1] && ([first] + pieces)[i] == pieces[i - 1];
  }

  lemma LinesMatchCons(lines: seq<string>, pieces: seq<string>, c: char)
    requires LinesMatch(lines, pieces) && lines != []
    ensures LinesMatch([[c] + lines[0]] + lines[1..], [[c] + pieces[0]] + pieces[1..])
  {
    assert pieces[0] == lines[0] || pieces[0] == lines[0] + ['\r'];
    assert [c] + (lines[0] + ['\r']) == ([c] + lines[0]) + ['\r'];
  }

  /** Each piece of the LF split is the matching line of the CRLF split, or that line followed by
      the CR that stood before its LF. */
  lemma {:induction false} SplitLinesAgainstSplit(s: string)
    ensures LinesMatch(SplitLines(s), Split(s, '\n'))
  {
    if s == [] {
    } else if s[0] == '\n' {
      SplitLinesAgainstSplit(s[1..]);
      LinesMatchEmpty(SplitLines(s[1..]), Split(s[1..], '\n'), []);
    } else if s[0] == '\r' && |s| > 1 && s[1] == '\n' {
      assert s[1..][0] == '\n' && s[1..][1..] == s[2..];
      var rest := Split(s[1..], '\n');
      assert rest == [[]] + Split(s[2..], '\n');
      assert rest[0] == [] && rest[1..] == Split(s[2..], '\n');
      assert Split(s, '\n') == [[s[0]] + rest[0]] + rest[1..];
      assert [s[0]] + rest[0] == ['\r'];
      SplitLinesAgainstSplit(s[2..]);
      LinesMatchEmpty(SplitLines(s[2..]), Split(s[2..], '\n'), ['\r']);
    } else {
      SplitLinesAgainstSplit(s[1..]);
      LinesMatchCons(SplitLines(s[1..]), Split(s[1..], '\n'), s[0]);
    }
  }

  /** Splitting on `\r?\n` and trimming gives the same lines as splitting on `\n` and trimming,
      because `trim` removes the carriage return. */
  lemma TrimmedLines(s: string)
    ensures Map(SplitLines(s), Trim) == Map(Split(s, '\n'), Trim)
  {
    SplitLinesAgainstSplit(s);
    var lines, pieces := SplitLines(s), Split(s, '\n');
    forall i | 0 <= i < |lines| ensures Trim(lines[i]) == Trim(pieces[i]) {
      if pieces[i] != lines[i] {
        TrimDropsTrailingSpace(lines[i], '\r');
      }
    }
  }

  /** ASCII case folding, the part of `toLowerCase` the model keeps: a capital letter becomes the
      small letter at the same place in the alphabet, and nothing else changes. */
  function LowerChar(c: char): (r: char)
    ensures !('A' <= r <= 'Z')
    ensures ('A' <= c <= 'Z') || r == c
    ensures 'A' <= c <= 'Z' ==> 'a' <= r <= 'z' && r as int - 'a' as int == c as int - 'A' as int
  {
    if 'A' <= c <= 'Z' then (c as int - 'A' as int + 'a' as int) as char else c
  }

  function Lower(s: string): (r: string)
    ensures |r| == |s|
    ensures forall i :: 0 <= i < |s| ==> r[i] == LowerChar(s[i])
  {
    seq(|s|, i requires 0 <= i < |s| => LowerChar(s[i]))
  }

  /** Two characters that are equal, or are the capital and the small form of one ASCII letter. */
  predicate SameIgnoringCase(x: char, y: char) {
    || x == y
    || ('A' <= x <= 'Z' && y as int == x as int + 32)
    || ('A' <= y <= 'Z' && x as int == y as int + 32)
  }

  /** Two characters fold to the same one exactly when they differ at most in ASCII case. */
  lemma LowerCharEqual(x: char, y: char)
    ensures LowerChar(x) == LowerChar(y) <==> SameIgnoringCase(x, y)
  {
  }

  /** Two strings fold to the same one exactly when they have the same length and differ at most
      in ASCII case, character by character; this is the key match of the definition lookup. */
  lemma LowerEqual(a: string, b: string)
    ensures Lower(a) == Lower(b) <==> |a| == |b| && forall i :: 0 <= i < |a| ==> SameIgnoringCase(a[i], b[i])
  {
    if |a| == |b| {
      forall i | 0 <= i < |a| ensures LowerChar(a[i]) == LowerChar(b[i]) <==> SameIgnoringCase(a[i], b[i]) {
        LowerCharEqual(a[i], b[i]);
      }
      if Lower(a) != Lower(b) {
        var i :| 0 <= i < |a| && Lower(a)[i] != Lower(b)[i];
        assert !SameIgnoringCase(a[i], b[i]);
      }
    }
  }

  /** The number of UTF-16 code units of a character: two above U+FFFF, otherwise one. */
  function CodeUnits(c: char): nat {
    if c as int > 0xFFFF then 2 else 1
  }

  /** `s.length`: JavaScript counts UTF-16 code units, so a character outside the Basic
      Multilingual Plane counts twice. */
  function Utf16Length(s: string): (n: nat)
    ensures |s| <= n <= 2 * |s|
    ensures n == |s| <==> forall i :: 0 <= i < |s| ==> s[i] as int <= 0xFFFF
  {
    if s == [] then 0
    else
      var n := CodeUnits(s[0]) + Utf16Length(s[1..]);
      assert forall i :: 1 <= i < |s| ==> s[i] == s[1..][i - 1];
      n
  }

  /** The length of a concatenation is the sum of the lengths. */
  lemma {:induction false} Utf16LengthAppend(a: string, b: string)
    ensures Utf16Length(a + b) == Utf16Length(a) + Utf16Length(b)
  {
    if a != [] {
      assert (a + b)[0] == a[0] && (a + b)[1..] == a[1..] + b;
      Utf16LengthAppend(a[1..], b);
    } else {
      assert a + b == b;
    }
  }

  /** `s.replace(/x/g, y)` for single characters `x` and `y`. */
  function ReplaceChar(s: string, x: char, y: char): (r: string)
    ensures |r| == |s|
    ensures forall i :: 0 <= i < |s| ==> r[i] == if s[i] == x then y else s[i]
  {
    seq(|s|, i requires 0 <= i < |s| => if s[i] == x then y else s[i])
  }
}
