/**
 * The `java.lang.String` operations the command parser uses: `trim`,
 * `split("\\s+")`, the lower-case prefix test and `equalsIgnoreCase`.
 * A Java `char` is a UTF-16 code unit; here it is a Unicode scalar value.
 */
module JavaText {

  /** What `String.trim` removes: every character up to U+0020. */
  predicate IsBlank(c: char)
  {
    c <= ' '
  }

  /** The characters of the regular-expression class `\s`: space, tab, LF, VT, FF, CR. */
  predicate IsSeparator(c: char)
  {
    c == ' ' || c == '\t' || c == '\n' || c == '\U{B}' || c == '\U{C}' || c == '\r'
  }

  predicate AllBlank(s: string)
  {
    forall k :: 0 <= k < |s| ==> IsBlank(s[k])
  }

  predicate NoSeparator(s: string)
  {
    forall k :: 0 <= k < |s| ==> !IsSeparator(s[k])
  }

  /** `s` is empty or neither begins nor ends with a blank character. */
  predicate Trimmed(s: string)
  {
    s == [] || (!IsBlank(s[0]) && !IsBlank(s[|s| - 1]))
  }

  /** `s` without its leading blank characters. */
  function TrimStart(s: string): (r: string)
    ensures |r| <= |s| && r == s[|s| - |r|..]
    ensures forall k :: 0 <= k < |s| - |r| ==> IsBlank(s[k])
    ensures r == [] || !IsBlank(r[0])
    decreases |s|
  {
    if s != [] && IsBlank(s[0]) then TrimStart(s[1..]) else s
  }

  /** `s` without its trailing blank characters. */
  function TrimEnd(s: string): (r: string)
    ensures |r| <= |s| && r == s[..|r|]
    ensures forall k :: |r| <= k < |s| ==> IsBlank(s[k])
    ensures r == [] || !IsBlank(r[|r| - 1])
    decreases |s|
  {
    if s != [] && IsBlank(s[|s| - 1]) then TrimEnd(s[..|s| - 1]) else s
  }

  /** Java's `s.trim()`. */
  function Trim(s: string): (r: string)
    ensures Trimmed(r)
    ensures |r| <= |s|
  {
    TrimEnd(TrimStart(s))
  }

  lemma {:induction false} TrimStartPadded(pre: string, rest: string)
    requires AllBlank(pre)
    requires rest == [] || !IsBlank(rest[0])
    ensures TrimStart(pre + rest) == rest
    decreases |pre|
  {
    if pre == [] {
      assert pre + rest == rest;
    } else {
      assert (pre + rest)[1..] == pre[1..] + rest;
      TrimStartPadded(pre[1..], rest);
    }
  }

  lemma {:induction false} TrimEndPadded(rest: string, post: string)
    requires AllBlank(post)
    requires rest == [] || !IsBlank(rest[|rest| - 1])
    ensures TrimEnd(rest + post) == rest
    decreases |post|
  {
    if post == [] {
      assert rest + post == rest;
    } else {
      assert (rest + post)[..|rest + post| - 1] == rest + post[..|post| - 1];
      TrimEndPadded(rest, post[..|post| - 1]);
    }
  }

  /** Trimming a trimmed text padded with blanks on both sides gives the text back. */
  lemma TrimPadded(pre: string, core: string, post: string)
    requires AllBlank(pre) && AllBlank(post)
    requires Trimmed(core)
    ensures Trim(pre + core + post) == core
  {
    if core == [] {
      assert pre + core + post == pre + post;
      TrimStartPadded(pre + post, []);
      assert pre + post + [] == pre + post;
      TrimEndPadded([], []);
    } else {
      assert pre + core + post == pre + (core + post);
      TrimStartPadded(pre, core + post);
      TrimEndPadded(core, post);
    }
  }

  // ---- split("\\s+") ----

  /** The longest prefix of `s` that holds no separator. */
  function Word(s: string): (w: string)
    ensures |w| <= |s| && w == s[..|w|]
    ensures NoSeparator(w)
    ensures |w| < |s| ==> IsSeparator(s[|w|])
    decreases |s|
  {
    if s == [] || IsSeparator(s[0]) then [] else [s[0]] + Word(s[1..])
  }

  /** `s` without its leading separators. */
  function SkipSeparators(s: string): (r: string)
    ensures |r| <= |s| && r == s[|s| - |r|..]
    ensures forall k :: 0 <= k < |s| - |r| ==> IsSeparator(s[k])
    ensures r == [] || !IsSeparator(r[0])
    decreases |s|
  {
    if s != [] && IsSeparator(s[0]) then SkipSeparators(s[1..]) else s
  }

  /**
   * The pieces of `s` between maximal runs of separators, with the empty
   * piece before a leading run and after a trailing run.
   */
  function Pieces(s: string): (p: seq<string>)
    ensures |p| >= 1 && p[0] == Word(s)
    decreases |s|
  {
    var w := Word(s);
    var rest := s[|w|..];
    if rest == [] then [w]
    else
      assert IsSeparator(rest[0]);
      [w] + Pieces(SkipSeparators(rest))
  }

  /** `p` without its trailing empty strings. */
  function DropTrailingEmpty(p: seq<string>): (q: seq<string>)
    ensures |q| <= |p| && q == p[..|q|]
    ensures q == [] || q[|q| - 1] != []
    ensures forall k :: |q| <= k < |p| ==> p[k] == []
  {
    if p == [] then []
    else if p[|p| - 1] == [] then DropTrailingEmpty(p[..|p| - 1])
    else p
  }

  /**
   * Java's `s.split("\\s+")`: the whole string when no separator occurs,
   * otherwise the pieces without the trailing empty ones.
   */
  function Split(s: string): (parts: seq<string>)
    ensures s != [] && !IsSeparator(s[0]) ==> |parts| >= 1 && parts[0] == Word(s) && parts[0] != []
  {
    if NoSeparator(s) then [s] else DropTrailingEmpty(Pieces(s))
  }

  lemma {:induction false} DropTrailingEmptyCons(a: string, p: seq<string>)
    requires a != []
    ensures DropTrailingEmpty([a] + p) == [a] + DropTrailingEmpty(p)
    decreases |p|
  {
    if p == [] {
      assert [a] + p == [a];
    } else {
      assert ([a] + p)[..|[a] + p| - 1] == [a] + p[..|p| - 1];
      if p[|p| - 1] == [] {
        DropTrailingEmptyCons(a, p[..|p| - 1]);
      }
    }
  }

  /** A word alone splits into itself. */
  lemma SplitWord(w: string)
    requires NoSeparator(w)
    ensures Split(w) == [w]
  {
  }

  /** A non-empty word, a run of separators and a text that starts and ends with no separator. */
  lemma SplitCons(w: string, sep: string, rest: string)
    requires w != [] && NoSeparator(w)
    requires sep != [] && forall k :: 0 <= k < |sep| ==> IsSeparator(sep[k])
    requires rest != [] && !IsSeparator(rest[0]) && !IsSeparator(rest[|rest| - 1])
    ensures Split(w + sep + rest) == [w] + Split(rest)
  {
    var s := w + sep + rest;
    assert IsSeparator(s[|w|]);
    assert Word(s) == w by {
      WordStops(w, sep + rest);
      assert s == w + (sep + rest);
    }
    assert s[|w|..] == sep + rest;
    SkipSeparatorsRun(sep, rest);
    assert Pieces(s) == [w] + Pieces(rest);
    DropTrailingEmptyCons(w, Pieces(rest));
    if NoSeparator(rest) {
      assert Word(rest) == rest by { WordStops(rest, []); assert rest + [] == rest; }
      assert Pieces(rest) == [rest];
    }
  }

  lemma {:induction false} WordStops(w: string, tail: string)
    requires NoSeparator(w)
    requires tail == [] || IsSeparator(tail[0])
    ensures Word(w + tail) == w
    decreases |w|
  {
    if w == [] {
      assert w + tail == tail;
    } else {
      assert (w + tail)[1..] == w[1..] + tail;
      WordStops(w[1..], tail);
    }
  }

  lemma {:induction false} SkipSeparatorsRun(sep: string, rest: string)
    requires forall k :: 0 <= k < |sep| ==> IsSeparator(sep[k])
    requires rest == [] || !IsSeparator(rest[0])
    ensures SkipSeparators(sep + rest) == rest
    decreases |sep|
  {
    if sep == [] {
      assert sep + rest == rest;
    } else {
      assert (sep + rest)[1..] == sep[1..] + rest;
      SkipSeparatorsRun(sep[1..], rest);
    }
  }

  // ---- case folding ----

  /** `Character.toUpperCase` on the characters that fold onto ASCII letters. */
  function UpperChar(c: char): char
  {
    if 'a' <= c <= 'z' then (c as int - 32) as char
    else if c == '\U{131}' then 'I'      // LATIN SMALL LETTER DOTLESS I
    else if c == '\U{17F}' then 'S'      // LATIN SMALL LETTER LONG S
    else c
  }

  /** `Character.toLowerCase` on the characters that fold onto ASCII letters. */
  function LowerChar(c: char): char
  {
    if 'A' <= c <= 'Z' then (c as int + 32) as char
    else if c == '\U{130}' then 'i'      // LATIN CAPITAL LETTER I WITH DOT ABOVE
    else if c == '\U{212A}' then 'k'     // KELVIN SIGN
    else c
  }

  /** The per-character test of `String.regionMatches(true, ...)`. */
  predicate SameIgnoringCase(c: char, d: char)
  {
    c == d || UpperChar(c) == UpperChar(d) || LowerChar(UpperChar(c)) == LowerChar(UpperChar(d))
  }

  /** The per-character test is reflexive and symmetric, and so is `equalsIgnoreCase`. */
  lemma IgnoringCaseSymmetric(a: string, b: string)
    ensures EqualsIgnoreCase(a, a)
    ensures EqualsIgnoreCase(a, b) <==> EqualsIgnoreCase(b, a)
  {
  }

  /** On ASCII letters the two folds undo each other. */
  lemma FoldsInverse(c: char)
    ensures IsAsciiLower(c) ==> UpperChar(c) != c && LowerChar(UpperChar(c)) == c
    ensures 'A' <= c <= 'Z' ==> LowerChar(c) != c && UpperChar(LowerChar(c)) == c
  {
  }

  /** Java's `a.equalsIgnoreCase(b)`. */
  predicate EqualsIgnoreCase(a: string, b: string)
  {
    |a| == |b| && forall k :: 0 <= k < |a| ==> SameIgnoringCase(a[k], b[k])
  }

  predicate IsAsciiLower(c: char)
  {
    'a' <= c <= 'z'
  }

  /** A text whose letters are those of `lower`, each in either ASCII case. */
  predicate AsciiCaseVariant(w: string, lower: string)
  {
    |w| == |lower| &&
    forall k :: 0 <= k < |w| ==> IsAsciiLower(lower[k]) && (w[k] == lower[k] || w[k] == UpperChar(lower[k]))
  }

  /** Every ASCII case variant of a lower-case word equals it ignoring case. */
  lemma CaseVariantEquals(w: string, lower: string)
    requires AsciiCaseVariant(w, lower)
    ensures EqualsIgnoreCase(w, lower)
  {
  }

  /**
   * Java's `s.toLowerCase(Locale.ROOT).startsWith(prefix)` for an ASCII
   * lower-case `prefix`, compared character by character. U+0130 lower-cases
   * to two characters, the second of which (U+0307) is no ASCII letter, so it
   * never lines up with the prefix.
   */
  predicate LowerStartsWith(s: string, prefix: string)
  {
    |s| >= |prefix| &&
    forall k :: 0 <= k < |prefix| ==> s[k] != '\U{130}' && LowerChar(s[k]) == prefix[k]
  }
}
