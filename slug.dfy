/** `slugify` of App.tsx: the file-name part of the exports. */
module Slug {
  import opened Sequences
  import opened Strings

  predicate IsAlnum(c: char) {
    'a' <= c <= 'z' || '0' <= c <= '9'
  }

  predicate IsSlugChar(c: char) {
    IsAlnum(c) || c == '-'
  }

  /** No two hyphens in a row. */
  predicate NoDoubleHyphen(s: string) {
    forall i :: 0 <= i < |s| - 1 ==> !(s[i] == '-' && s[i + 1] == '-')
  }

  /** What slugify promises: non-empty, only `[a-z0-9-]`, no hyphen at either end, no `--`. */
  predicate IsSlug(s: string) {
    && s != []
    && (forall i :: 0 <= i < |s| ==> IsSlugChar(s[i]))
    && s[0] != '-' && s[|s| - 1] != '-'
    && NoDoubleHyphen(s)
  }

  /** The rest of a run of characters outside `[a-z0-9]`, dropped. */
  function DropRun(s: string): (r: string)
    ensures |r| <= |s|
    ensures r == [] || IsAlnum(r[0])
  {
    if s != [] && !IsAlnum(s[0]) then DropRun(s[1..]) else s
  }

  /** DropRun cuts a prefix that holds no letter or digit. */
  lemma {:induction false} DropRunSuffix(s: string)
    ensures DropRun(s) == s[|s| - |DropRun(s)|..]
    ensures Filter(DropRun(s), IsAlnum) == Filter(s, IsAlnum)
  {
    if s != [] && !IsAlnum(s[0]) {
      DropRunSuffix(s[1..]);
      assert s == [s[0]] + s[1..];
    }
  }

  /** What Hyphenate promises of its result `r` for the input `s`. */
  predicate HyphenOf(s: string, r: string) {
    && (forall i :: 0 <= i < |r| ==> IsSlugChar(r[i]))
    && NoDoubleHyphen(r)
    && Filter(r, IsAlnum) == Filter(s, IsAlnum)
    && (r == [] <==> s == [])
    && (s != [] ==> (r[0] == '-' <==> !IsAlnum(s[0])))
  }

  /** `.replace(/[^a-z0-9]+/g, "-")`: each maximal run of other characters becomes one hyphen.
      HyphenateShape states what the result holds; HyphenateAppend and HyphenateRun place the hyphens. */
  function Hyphenate(s: string): (r: string)
    ensures |r| <= |s|
    ensures r == [] <==> s == []
    decreases |s|
  {
    if s == [] then []
    else if IsAlnum(s[0]) then [s[0]] + Hyphenate(s[1..])
    else ['-'] + Hyphenate(DropRun(s[1..]))
  }

  /** The letters and digits are kept, in order, only `[a-z0-9-]` is left, no two hyphens are in a
      row, and the result starts with a hyphen exactly when the input starts with another character. */
  lemma {:induction false} HyphenateShape(s: string)
    ensures var r := Hyphenate(s);
      && (forall i :: 0 <= i < |r| ==> IsSlugChar(r[i]))
      && NoDoubleHyphen(r)
      && Filter(r, IsAlnum) == Filter(s, IsAlnum)
      && (r == [] <==> s == [])
      && (s != [] ==> (r[0] == '-' <==> !IsAlnum(s[0])))
    decreases |s|
  {
    if s == [] {
    } else if IsAlnum(s[0]) {
      HyphenateShape(s[1..]);
      HyphenOfAlnum(s, Hyphenate(s[1..]));
    } else {
      HyphenateShape(DropRun(s[1..]));
      DropRunSuffix(s[1..]);
      HyphenOfOther(s, DropRun(s[1..]), Hyphenate(DropRun(s[1..])));
    }
  }

  /** A letter or digit in front keeps HyphenOf. */
  lemma HyphenOfAlnum(s: string, rest: string)
    requires s != [] && IsAlnum(s[0])
    requires HyphenOf(s[1..], rest)
    ensures HyphenOf(s, [s[0]] + rest)
  {
    var r := [s[0]] + rest;
    SlugCharsCons(s[0], rest);
    assert r[1..] == rest;
    assert s == [s[0]] + s[1..];
  }

  /** A run of other characters in front, dropped down to `d`, and one hyphen for it keep HyphenOf. */
  lemma HyphenOfOther(s: string, d: string, rest: string)
    requires s != [] && !IsAlnum(s[0])
    requires d == [] || IsAlnum(d[0])
    requires Filter(d, IsAlnum) == Filter(s[1..], IsAlnum)
    requires HyphenOf(d, rest)
    ensures HyphenOf(s, ['-'] + rest)
  {
    var r := ['-'] + rest;
    SlugCharsCons('-', rest);
    assert r[1..] == rest;
    assert Filter(r, IsAlnum) == Filter(rest, IsAlnum);
    assert Filter(s, IsAlnum) == Filter(s[1..], IsAlnum);
  }

  /** A slug character in front of a string of slug characters without `--` keeps it so, unless it
      is a hyphen before a hyphen. */
  lemma SlugCharsCons(c: char, rest: string)
    requires IsSlugChar(c)
    requires forall i :: 0 <= i < |rest| ==> IsSlugChar(rest[i])
    requires NoDoubleHyphen(rest)
    requires c == '-' ==> rest == [] || IsAlnum(rest[0])
    ensures forall i :: 0 <= i < |[c] + rest| ==> IsSlugChar(([c] + rest)[i])
    ensures NoDoubleHyphen([c] + rest)
  {
    var r := [c] + rest;
    forall i | 0 <= i < |r| - 1 ensures !(r[i] == '-' && r[i + 1] == '-') {
      if i > 0 {
        assert r[i] == rest[i - 1] && r[i + 1] == rest[i];
      }
    }
  }

  /** The `^-` half of the second replacement. */
  function DropLeadingHyphen(s: string): (r: string)
    ensures |s| - 1 <= |r| <= |s| && r == s[|s| - |r|..]
    ensures Filter(r, IsAlnum) == Filter(s, IsAlnum)
    ensures (forall i :: 0 <= i < |s| ==> IsSlugChar(s[i])) ==> forall i :: 0 <= i < |r| ==> IsSlugChar(r[i])
    ensures NoDoubleHyphen(s) ==> NoDoubleHyphen(r) && (r == [] || r[0] != '-')
    ensures s != [] && s[0] == '-' ==> r == s[1..]
    ensures s == [] || s[0] != '-' ==> r == s
  {
    if s != [] && s[0] == '-' then
      assert forall i :: 0 <= i < |s| - 1 ==> s[1..][i] == s[i + 1];
      s[1..]
    else s
  }

  /** The `-$` half of the second replacement. */
  function DropTrailingHyphen(s: string): (r: string)
    ensures |s| - 1 <= |r| <= |s| && r == s[..|r|]
    ensures Filter(r, IsAlnum) == Filter(s, IsAlnum)
    ensures (forall i :: 0 <= i < |s| ==> IsSlugChar(s[i])) ==> forall i :: 0 <= i < |r| ==> IsSlugChar(r[i])
    ensures NoDoubleHyphen(s) ==> NoDoubleHyphen(r) && (r == [] || r[|r| - 1] != '-')
    ensures s != [] && s[|s| - 1] == '-' ==> r == s[..|s| - 1]
    ensures s == [] || s[|s| - 1] != '-' ==> r == s
  {
    if s != [] && s[|s| - 1] == '-' then
      var r := s[..|s| - 1];
      DropTrailingFilter(s, r);
      DropTrailingShape(s, r);
      r
    else s
  }

  /** Cutting a final hyphen keeps the letters and digits. */
  lemma DropTrailingFilter(s: string, r: string)
    requires s != [] && s[|s| - 1] == '-' && r == s[..|s| - 1]
    ensures Filter(r, IsAlnum) == Filter(s, IsAlnum)
  {
    FilterAppend(r, [s[|s| - 1]], IsAlnum);
    FilterSingle(s[|s| - 1], IsAlnum);
    assert r + [s[|s| - 1]] == s;
  }

  /** Cutting a final hyphen keeps slug characters and leaves no final hyphen when there was no `--`. */
  lemma DropTrailingShape(s: string, r: string)
    requires s != [] && s[|s| - 1] == '-' && r == s[..|s| - 1]
    ensures (forall i :: 0 <= i < |s| ==> IsSlugChar(s[i])) ==> forall i :: 0 <= i < |r| ==> IsSlugChar(r[i])
    ensures NoDoubleHyphen(s) ==> NoDoubleHyphen(r) && (r == [] || r[|r| - 1] != '-')
  {
    assert forall i :: 0 <= i < |r| ==> r[i] == s[i];
  }

  /** `.replace(/(^-|-$)/g, "")`: one hyphen off each end. On a string of slug characters without
      `--`, what is left is empty or a slug; the letters and digits are kept in any case. */
  function TrimHyphens(s: string): (r: string)
    ensures var u := if s != [] && s[0] == '-' then s[1..] else s;
            r == if u != [] && u[|u| - 1] == '-' then u[..|u| - 1] else u
    ensures |s| - 2 <= |r| <= |s|
    ensures Filter(r, IsAlnum) == Filter(s, IsAlnum)
    ensures (forall i :: 0 <= i < |s| ==> IsSlugChar(s[i])) && NoDoubleHyphen(s) ==> r == [] || IsSlug(r)
  {
    var u := DropLeadingHyphen(s);
    var r := DropTrailingHyphen(u);
    TrimHyphensEnds(s, u, r);
    TrimHyphensKeeps(s, u, r);
    r
  }

  /** What the two cuts keep: the letters and digits, and a slug inside hyphenated text. */
  lemma TrimHyphensKeeps(s: string, u: string, r: string)
    requires u == DropLeadingHyphen(s) && r == DropTrailingHyphen(u)
    ensures |s| - 2 <= |r| <= |s|
    ensures Filter(r, IsAlnum) == Filter(s, IsAlnum)
    ensures (forall i :: 0 <= i < |s| ==> IsSlugChar(s[i])) && NoDoubleHyphen(s) ==> r == [] || IsSlug(r)
  {
    assert r != [] ==> r[0] == u[0];
  }

  /** The two cuts of TrimHyphens, spelled out: a leading hyphen, then a trailing one. */
  lemma TrimHyphensEnds(s: string, u: string, r: string)
    requires u == DropLeadingHyphen(s) && r == DropTrailingHyphen(u)
    ensures var v := if s != [] && s[0] == '-' then s[1..] else s;
            r == if v != [] && v[|v| - 1] == '-' then v[..|v| - 1] else v
  {
  }

  /** A slug holds a letter or a digit. */
  lemma SlugHasAlnum(t: string)
    requires IsSlug(t)
    ensures Filter(t, IsAlnum) != []
  {
  }

  /** The two fallbacks are slugs. */
  lemma FallbackSlugs()
    ensures IsSlug("cards") && IsSlug("pairs")
  {
    var c, p := "cards", "pairs";
    assert forall i :: 0 <= i < |c| ==> IsSlugChar(c[i]);
    assert forall i :: 0 <= i < |p| ==> IsSlugChar(p[i]);
  }

  /** `(s || "").toLowerCase().replace(...).replace(...) || "cards"`: a slug that keeps the input's
      letters and digits in order, or `cards` when the input has none. */
  function Slugify(s: string): (r: string)
    ensures IsSlug(r)
    ensures (forall i :: 0 <= i < |s| ==> !IsAlnum(LowerChar(s[i]))) ==> r == "cards"
    ensures (exists i :: 0 <= i < |s| && IsAlnum(LowerChar(s[i]))) ==> Filter(r, IsAlnum) == Filter(Lower(s), IsAlnum)
    ensures (exists i :: 0 <= i < |s| && IsAlnum(LowerChar(s[i]))) ==> r == TrimHyphens(Hyphenate(Lower(s)))
  {
    var l := Lower(s);
    HyphenateShape(l);
    var t := TrimHyphens(Hyphenate(l));
    SlugifyParts(l, Hyphenate(l), t);
    if t != [] then t
    else
      FallbackSlugs();
      "cards"
  }

  /** Trimming the hyphens of a hyphenated string `h` of `l` leaves a slug with the letters and
      digits of `l`, or nothing exactly when `l` has none. */
  lemma SlugifyParts(l: string, h: string, t: string)
    requires forall i :: 0 <= i < |h| ==> IsSlugChar(h[i])
    requires NoDoubleHyphen(h)
    requires Filter(h, IsAlnum) == Filter(l, IsAlnum)
    requires t == TrimHyphens(h)
    ensures t != [] ==> IsSlug(t)
    ensures Filter(t, IsAlnum) == Filter(l, IsAlnum)
    ensures t == [] <==> forall i :: 0 <= i < |l| ==> !IsAlnum(l[i])
  {
    FilterEmpty(l, IsAlnum);
    if t != [] {
      SlugHasAlnum(t);
    }
  }

  /** The name the exports use: `slugify(topic || 'pairs')`. */
  function FileNameSlug(topic: string): (r: string)
    ensures IsSlug(r)
    ensures topic == [] ==> r == "pairs"
    ensures topic != [] ==> r == Slugify(topic)
  {
    FallbackSlugs();
    SlugifySlug("pairs");
    Slugify(if topic == [] then "pairs" else topic)
  }

  /** A run of other characters in front of a letter or digit, or of the end, is dropped whole. */
  lemma {:induction false} DropRunSkip(w: string, b: string)
    requires forall i :: 0 <= i < |w| ==> !IsAlnum(w[i])
    requires b == [] || IsAlnum(b[0])
    ensures DropRun(w + b) == b
  {
    if w == [] {
      assert w + b == b;
    } else {
      assert (w + b)[1..] == w[1..] + b;
      DropRunSkip(w[1..], b);
    }
  }

  /** Dropping the leading run of a string that ends with a letter or digit does not reach what
      follows it. */
  lemma {:induction false} DropRunAppend(x: string, b: string)
    requires x != [] && IsAlnum(x[|x| - 1])
    ensures DropRun(x + b) == DropRun(x) + b
    ensures DropRun(x) != [] && IsAlnum(DropRun(x)[|DropRun(x)| - 1])
  {
    if !IsAlnum(x[0]) {
      assert (x + b)[1..] == x[1..] + b;
      DropRunAppend(x[1..], b);
    }
  }

  /** One step of Hyphenate on a leading letter or digit. */
  lemma HyphenateAlnum(s: string)
    requires s != [] && IsAlnum(s[0])
    ensures Hyphenate(s) == [s[0]] + Hyphenate(s[1..])
  {
  }

  /** One step of Hyphenate on a leading other character: one hyphen for the whole run. */
  lemma HyphenateOther(s: string)
    requires s != [] && !IsAlnum(s[0])
    ensures Hyphenate(s) == ['-'] + Hyphenate(DropRun(s[1..]))
  {
  }

  /** Hyphenating works piece by piece across a seam that follows a letter or digit. */
  lemma {:induction false} HyphenateAppend(a: string, b: string)
    requires a == [] || IsAlnum(a[|a| - 1])
    ensures Hyphenate(a + b) == Hyphenate(a) + Hyphenate(b)
    decreases |a|, 1
  {
    if a == [] {
      assert a + b == b;
    } else if IsAlnum(a[0]) {
      HyphenateAppendFromAlnum(a, b);
    } else {
      HyphenateAppendFromOther(a, b);
    }
  }

  /** HyphenateAppend when `a` starts with a letter or digit. */
  lemma {:induction false} HyphenateAppendFromAlnum(a: string, b: string)
    requires a != [] && IsAlnum(a[0]) && IsAlnum(a[|a| - 1])
    ensures Hyphenate(a + b) == Hyphenate(a) + Hyphenate(b)
    decreases |a|, 0
  {
    EndsAlnumTail(a);
    HyphenateAppend(a[1..], b);
    HyphenateAppendAlnum(a, b, a[1..]);
  }

  /** HyphenateAppend when `a` starts with another character. */
  lemma {:induction false} HyphenateAppendFromOther(a: string, b: string)
    requires a != [] && !IsAlnum(a[0]) && IsAlnum(a[|a| - 1])
    ensures Hyphenate(a + b) == Hyphenate(a) + Hyphenate(b)
    decreases |a|, 0
  {
    DropRunAfterLead(a, b);
    HyphenateAppend(DropRun(a[1..]), b);
    HyphenateAppendOther(a, b);
  }

  /** What is left of `a` after its leading run, when `a` ends with a letter or digit, is shorter,
      still ends with one, and the run is dropped the same way with `b` behind it. */
  lemma DropRunAfterLead(a: string, b: string)
    requires a != [] && !IsAlnum(a[0]) && IsAlnum(a[|a| - 1])
    ensures |DropRun(a[1..])| < |a|
    ensures DropRun(a[1..]) != [] && IsAlnum(DropRun(a[1..])[|DropRun(a[1..])| - 1])
    ensures DropRun(a[1..] + b) == DropRun(a[1..]) + b
  {
    EndsAlnumTail(a);
    DropRunAppend(a[1..], b);
  }

  /** Dropping the first character of a string that ends with a letter or digit leaves one that
      does too, or nothing when that character was the only one. */
  lemma EndsAlnumTail(a: string)
    requires a != [] && IsAlnum(a[|a| - 1])
    ensures a[1..] == [] || IsAlnum(a[1..][|a| - 2])
    ensures !IsAlnum(a[0]) ==> a[1..] != []
  {
  }

  /** The step of HyphenateAppend over a leading letter or digit. */
  lemma HyphenateAppendAlnum(a: string, b: string, t: string)
    requires a != [] && IsAlnum(a[0]) && t == a[1..]
    requires Hyphenate(t + b) == Hyphenate(t) + Hyphenate(b)
    ensures Hyphenate(a + b) == Hyphenate(a) + Hyphenate(b)
  {
    ConsAppend(a, b);
    HyphenateAlnum(a + b);
    HyphenateAlnum(a);
    AppendAssoc([a[0]], Hyphenate(t), Hyphenate(b));
  }

  /** The step of HyphenateAppend over a leading run of other characters. */
  lemma HyphenateAppendOther(a: string, b: string)
    requires a != [] && !IsAlnum(a[0])
    requires DropRun(a[1..] + b) == DropRun(a[1..]) + b
    requires Hyphenate(DropRun(a[1..]) + b) == Hyphenate(DropRun(a[1..])) + Hyphenate(b)
    ensures Hyphenate(a + b) == Hyphenate(a) + Hyphenate(b)
  {
    var d := DropRun(a[1..]);
    ConsAppend(a, b);
    HyphenateOther(a + b);
    HyphenateOther(a);
    AppendAssoc(['-'], Hyphenate(d), Hyphenate(b));
  }

  /** A maximal run of characters other than `[a-z0-9]` becomes exactly one hyphen in its place. */
  lemma HyphenateRun(w: string, b: string)
    requires w != [] && forall i :: 0 <= i < |w| ==> !IsAlnum(w[i])
    requires b == [] || IsAlnum(b[0])
    ensures Hyphenate(w + b) == "-" + Hyphenate(b)
  {
    ConsAppend(w, b);
    HyphenateOther(w + b);
    DropRunSkipTail(w, b);
  }

  lemma DropRunSkipTail(w: string, b: string)
    requires w != [] && forall i :: 0 <= i < |w| ==> !IsAlnum(w[i])
    requires b == [] || IsAlnum(b[0])
    ensures DropRun(w[1..] + b) == b
  {
    assert forall i :: 0 <= i < |w| - 1 ==> w[1..][i] == w[i + 1];
    DropRunSkip(w[1..], b);
  }

  /** Hyphenating leaves alone a string of slug characters without `--`. */
  lemma {:induction false} HyphenateFixed(s: string)
    requires forall i :: 0 <= i < |s| ==> IsSlugChar(s[i])
    requires NoDoubleHyphen(s)
    ensures Hyphenate(s) == s
  {
    if s != [] {
      SlugCharsTail(s);
      HyphenateFixed(s[1..]);
      HyphenateFixedStep(s, s[1..]);
    }
  }

  /** Dropping the first character keeps a string of slug characters without `--` so. */
  lemma SlugCharsTail(s: string)
    requires s != []
    requires forall i :: 0 <= i < |s| ==> IsSlugChar(s[i])
    requires NoDoubleHyphen(s)
    ensures forall i :: 0 <= i < |s| - 1 ==> IsSlugChar(s[1..][i])
    ensures NoDoubleHyphen(s[1..])
    ensures s[0] == '-' ==> |s| == 1 || s[1] != '-'
  {
    var rest := s[1..];
    forall i | 0 <= i < |rest| - 1 ensures !(rest[i] == '-' && rest[i + 1] == '-') {
      assert rest[i] == s[i + 1] && rest[i + 1] == s[i + 2];
    }
  }

  /** One step of HyphenateFixed: a slug character in front of a fixed point, not a second hyphen. */
  lemma HyphenateFixedStep(s: string, rest: string)
    requires s != [] && rest == s[1..] && Hyphenate(rest) == rest
    requires IsSlugChar(s[0]) && (rest == [] || IsSlugChar(rest[0]))
    requires s[0] == '-' ==> rest == [] || rest[0] != '-'
    ensures Hyphenate(s) == s
  {
    assert s == [s[0]] + rest;
    if !IsAlnum(s[0]) {
      assert DropRun(rest) == rest;
    }
  }

  /** A slug is its own slug. */
  lemma SlugifySlug(s: string)
    requires IsSlug(s)
    ensures Slugify(s) == s
  {
    assert IsAlnum(LowerChar(s[0]));
    assert Lower(s) == s;
    HyphenateFixed(s);
    assert TrimHyphens(s) == s;
  }

  /** Slugifying twice is slugifying once. */
  lemma SlugifyIdempotent(s: string)
    ensures Slugify(Slugify(s)) == Slugify(s)
  {
    SlugifySlug(Slugify(s));
  }
}
