/**
 * The text command interface of the click-assist engine: a line of text is
 * trimmed, tested for the keyword `clickassist` as a case-insensitive
 * prefix, split on white space, and the second token chooses the
 * sub-command.
 */
module Commands {
  import opened Wrappers
  import opened JavaDouble
  import opened JavaText
  import JavaNumber

  const Keyword: string := "clickassist"

  /** What a command line asks of the engine. `Chance(None)` is a malformed number. */
  datatype Command = NotHandled | Status | Enable | Disable | Chance(percent: Option<Dbl>) | Usage

  predicate IsOnWord(w: string)
  {
    EqualsIgnoreCase(w, "on") || EqualsIgnoreCase(w, "enable")
  }

  predicate IsOffWord(w: string)
  {
    EqualsIgnoreCase(w, "off") || EqualsIgnoreCase(w, "disable")
  }

  /** The sub-command named by the tokens that follow the keyword token. */
  function Subcommand(args: seq<string>): (c: Command)
    requires args != []
    ensures c != NotHandled && c != Status
    ensures c == Usage <==>
      !IsOnWord(args[0]) && !IsOffWord(args[0]) && !(EqualsIgnoreCase(args[0], "chance") && |args| >= 2)
  {
    if IsOnWord(args[0]) then Enable
    else if IsOffWord(args[0]) then Disable
    else if EqualsIgnoreCase(args[0], "chance") && |args| >= 2 then Chance(JavaNumber.ParseDouble(args[1]))
    else Usage
  }

  /** The enabled flag after a command: only `on`/`enable` and `off`/`disable` change it. */
  function EnabledAfter(c: Command, enabled: bool): (e: bool)
    ensures c == Enable ==> e
    ensures c == Disable ==> !e
    ensures c != Enable && c != Disable ==> e == enabled
  {
    match c
    case Enable => true
    case Disable => false
    case _ => enabled
  }

  /** The chance after a command: only `chance` with a well-formed number changes it. */
  function ChanceAfterCommand(c: Command, chance: real): (r: real)
    requires 0.0 <= chance <= 1.0
    ensures 0.0 <= r <= 1.0
    ensures c.Chance? && c.percent.Some? ==> r == ChanceAfter(chance, DivideBy100(c.percent.value))
    ensures !(c.Chance? && c.percent.Some?) ==> r == chance
  {
    match c
    case Chance(Some(pct)) => ChanceAfter(chance, DivideBy100(pct))
    case _ => chance
  }

  /** A text that starts with the keyword starts with neither a blank nor a separator. */
  lemma KeywordStartIsNotBlank(s: string)
    requires LowerStartsWith(s, Keyword)
    ensures s != [] && !IsBlank(s[0]) && !IsSeparator(s[0])
  {
    assert LowerChar(s[0]) == Keyword[0];
  }

  /** The command a line of text asks for; `None` is Java's `null`. */
  function Parse(raw: Option<string>): (c: Command)
    ensures c != NotHandled <==> raw.Some? && LowerStartsWith(Trim(raw.value), Keyword)
  {
    match raw
    case None => NotHandled
    case Some(text) =>
      var s := Trim(text);
      if !LowerStartsWith(s, Keyword) then NotHandled
      else
        KeywordStartIsNotBlank(s);
        var parts := Split(s);
        if |parts| == 1 then Status else Subcommand(parts[1..])
  }

  predicate AllSeparators(s: string)
  {
    forall k :: 0 <= k < |s| ==> IsSeparator(s[k])
  }

  /**
   * The keyword token alone, padded with blanks, asks for the status and
   * changes nothing. The token need only start with the keyword.
   */
  lemma BareKeyword(pre: string, word: string, post: string)
    requires AllBlank(pre) && AllBlank(post)
    requires Trimmed(word) && NoSeparator(word) && LowerStartsWith(word, Keyword)
    ensures Parse(Some(pre + word + post)) == Status
  {
    TrimPadded(pre, word, post);
    SplitWord(word);
  }

  /**
   * A keyword token followed by more tokens: the command is the sub-command
   * of the remaining tokens, whatever follows the keyword inside the first
   * token (a prefix match, so `clickassistx on` is handled as `on`).
   */
  lemma KeywordThenArguments(pre: string, word: string, sep: string, rest: string, post: string)
    requires AllBlank(pre) && AllBlank(post)
    requires NoSeparator(word) && LowerStartsWith(word, Keyword)
    requires sep != [] && AllSeparators(sep)
    requires rest != [] && Trimmed(rest)
    ensures Split(rest) != []
    ensures Parse(Some(pre + word + sep + rest + post)) == Subcommand(Split(rest))
  {
    KeywordLineSplits(word, sep, rest);
    KeywordLineTrims(pre, word, sep, rest, post);
    KeywordPrefixKept(word, sep, rest);
    ParseTrimmed(pre + word + sep + rest + post, word + sep + rest, word, Split(rest));
  }

  /** The keyword token and a trimmed rest split into the token followed by the rest's parts. */
  lemma KeywordLineSplits(word: string, sep: string, rest: string)
    requires NoSeparator(word) && LowerStartsWith(word, Keyword)
    requires sep != [] && AllSeparators(sep)
    requires rest != [] && Trimmed(rest)
    ensures Split(rest) != []
    ensures Split(word + sep + rest) == [word] + Split(rest)
  {
    KeywordStartIsNotBlank(word);
    SplitCons(word, sep, rest);
  }

  /** Trimming a padded keyword line leaves the keyword token, the separator and the rest. */
  lemma KeywordLineTrims(pre: string, word: string, sep: string, rest: string, post: string)
    requires AllBlank(pre) && AllBlank(post)
    requires LowerStartsWith(word, Keyword)
    requires rest != [] && Trimmed(rest)
    ensures Trim(pre + word + sep + rest + post) == word + sep + rest
  {
    var core := word + sep + rest;
    assert Trimmed(core) by {
      KeywordStartIsNotBlank(word);
      assert core[0] == word[0];
      assert core[|core| - 1] == rest[|rest| - 1];
    }
    Regroup(pre, word, sep, rest, post);
    TrimPadded(pre, core, post);
  }

  /** Whatever follows a token that passes the keyword test, the line still passes it. */
  lemma KeywordPrefixKept(word: string, sep: string, rest: string)
    requires LowerStartsWith(word, Keyword)
    ensures LowerStartsWith(word + sep + rest, Keyword)
  {
    assert forall k :: 0 <= k < |word| ==> (word + sep + rest)[k] == word[k];
  }

  lemma Regroup(pre: string, word: string, sep: string, rest: string, post: string)
    ensures pre + word + sep + rest + post == pre + (word + sep + rest) + post
  {
  }

  /** A line whose trimmed text starts with the keyword and has several tokens. */
  lemma ParseTrimmed(line: string, core: string, head: string, parts: seq<string>)
    requires Trim(line) == core && LowerStartsWith(core, Keyword)
    requires Split(core) == [head] + parts && parts != []
    ensures Parse(Some(line)) == Subcommand(parts)
  {
    assert Split(core)[1..] == parts;
  }

  /** On a plain ASCII character, Java's case-insensitive test against a lower-case ASCII letter accepts exactly its two cases. */
  lemma AsciiFold(c: char, t: char)
    requires c < '\U{80}' && IsAsciiLower(t)
    ensures SameIgnoringCase(c, t) <==> c == t || c == UpperChar(t)
  {
  }

  /** On a plain ASCII character, lower-casing gives a lower-case letter exactly from that letter or its capital. */
  lemma AsciiLowerFold(c: char, t: char)
    requires c < '\U{80}' && IsAsciiLower(t)
    ensures LowerChar(c) == t <==> c == t || c == UpperChar(t)
  {
  }

  /**
   * On plain ASCII text, the lower-cased prefix test with a lower-case word
   * accepts exactly the texts that start with a case variant of it.
   */
  lemma AsciiLowerStartsWith(s: string, prefix: string)
    requires IsAscii(s)
    requires forall k :: 0 <= k < |prefix| ==> IsAsciiLower(prefix[k])
    ensures LowerStartsWith(s, prefix) <==> |s| >= |prefix| && AsciiCaseVariant(s[..|prefix|], prefix)
  {
    if |s| >= |prefix| {
      forall k | 0 <= k < |prefix|
        ensures (s[k] != '\U{130}' && LowerChar(s[k]) == prefix[k]) <==> s[k] == prefix[k] || s[k] == UpperChar(prefix[k])
      {
        AsciiLowerFold(s[k], prefix[k]);
      }
      assert forall k :: 0 <= k < |prefix| ==> s[..|prefix|][k] == s[k];
    }
  }

  predicate IsAscii(w: string)
  {
    forall k :: 0 <= k < |w| ==> w[k] < '\U{80}'
  }

  /** On plain ASCII text, `equalsIgnoreCase` with a lower-case word accepts exactly its ASCII case variants. */
  lemma AsciiEqualsIgnoreCase(w: string, lower: string)
    requires IsAscii(w)
    requires forall k :: 0 <= k < |lower| ==> IsAsciiLower(lower[k])
    ensures EqualsIgnoreCase(w, lower) <==> AsciiCaseVariant(w, lower)
  {
    if |w| == |lower| {
      forall k | 0 <= k < |w|
        ensures SameIgnoringCase(w[k], lower[k]) <==> w[k] == lower[k] || w[k] == UpperChar(lower[k])
      {
        AsciiFold(w[k], lower[k]);
      }
    }
  }

  /**
   * On plain ASCII text, a word that is no case variant of `on`, `enable`,
   * `off` or `disable`, and is not `chance` followed by an argument, prints
   * the usage and so changes neither the flag nor the chance.
   */
  lemma OtherWordIsUsage(w: string, more: seq<string>, enabled: bool, chance: real)
    requires IsAscii(w) && 0.0 <= chance <= 1.0
    requires !AsciiCaseVariant(w, "on") && !AsciiCaseVariant(w, "enable")
    requires !AsciiCaseVariant(w, "off") && !AsciiCaseVariant(w, "disable")
    requires more != [] ==> !AsciiCaseVariant(w, "chance")
    ensures Subcommand([w] + more) == Usage
    ensures EnabledAfter(Usage, enabled) == enabled && ChanceAfterCommand(Usage, chance) == chance
  {
    AsciiEqualsIgnoreCase(w, "on");
    AsciiEqualsIgnoreCase(w, "enable");
    AsciiEqualsIgnoreCase(w, "off");
    AsciiEqualsIgnoreCase(w, "disable");
    AsciiEqualsIgnoreCase(w, "chance");
  }

  /** `clickassist foo` prints the usage. */
  lemma UnknownWordExample()
    ensures Subcommand(["foo"]) == Usage
    ensures Subcommand(["foo", "65"]) == Usage
  {
    assert IsAscii("foo") && "foo"[0] == 'f' && "foo"[1] == 'o';
    assert !AsciiCaseVariant("foo", "off") by { assert "off"[0] == 'o' && "foo"[0] != 'o' && "foo"[0] != UpperChar('o'); }
    assert !AsciiCaseVariant("foo", "chance") && !AsciiCaseVariant("foo", "on");
    OtherWordIsUsage("foo", [], true, 0.5);
    assert ["foo"] + ["65"] == ["foo", "65"];
    OtherWordIsUsage("foo", ["65"], true, 0.5);
  }

  /** On plain ASCII text, the sub-commands `on` and `enable` are recognised in every mix of cases and no other word is. */
  lemma EnableWordsAscii(w: string, more: seq<string>)
    requires IsAscii(w)
    ensures Subcommand([w] + more) == Enable <==> AsciiCaseVariant(w, "on") || AsciiCaseVariant(w, "enable")
  {
    AsciiEqualsIgnoreCase(w, "on");
    AsciiEqualsIgnoreCase(w, "enable");
  }

  /** On plain ASCII text, `off` and `disable` are recognised in every mix of cases and no other word is. */
  lemma DisableWordsAscii(w: string, more: seq<string>)
    requires IsAscii(w)
    ensures Subcommand([w] + more) == Disable <==> AsciiCaseVariant(w, "off") || AsciiCaseVariant(w, "disable")
  {
    AsciiEqualsIgnoreCase(w, "on");
    AsciiEqualsIgnoreCase(w, "enable");
    AsciiEqualsIgnoreCase(w, "off");
    AsciiEqualsIgnoreCase(w, "disable");
  }

  /**
   * `chance` followed by a number asks for that percentage; extra tokens
   * after the number are ignored. Without a number it is a usage request.
   */
  lemma ChanceWords(w: string, more: seq<string>)
    requires EqualsIgnoreCase(w, "chance")
    ensures Subcommand([w] + more) == if more == [] then Usage else Chance(JavaNumber.ParseDouble(more[0]))
  {
    assert !IsOnWord(w) by {
      assert !SameIgnoringCase(w[0], "enable"[0]);
    }
    assert !IsOffWord(w) by {
      assert !SameIgnoringCase(w[0], "disable"[0]);
    }
  }

  /** Java folds DOTLESS I and LONG S onto `i` and `s`: `dıſable` disables. */
  lemma UnicodeFoldDisables()
    ensures Subcommand(["d\U{131}\U{17F}able"]) == Disable
  {
    var w := "d\U{131}\U{17F}able";
    assert EqualsIgnoreCase(w, "disable");
    assert !EqualsIgnoreCase(w, "on") && !EqualsIgnoreCase(w, "enable");
  }

  // ---- literal command lines ----

  lemma WordIsToken(w: string)
    requires w != [] && forall k :: 0 <= k < |w| ==> 'a' <= w[k] <= 'z' || 'A' <= w[k] <= 'Z' || '0' <= w[k] <= '9'
    ensures Trimmed(w) && NoSeparator(w)
  {
  }

  /** Every ASCII case variant of the keyword is a token that starts with the keyword. */
  lemma KeywordToken(w: string)
    requires AsciiCaseVariant(w, Keyword)
    ensures Trimmed(w) && NoSeparator(w) && LowerStartsWith(w, Keyword)
  {
    forall k | 0 <= k < |w|
      ensures !IsSeparator(w[k]) && !IsBlank(w[k]) && w[k] != '\U{130}' && LowerChar(w[k]) == Keyword[k]
    {
      assert IsAsciiLower(Keyword[k]);
    }
  }

  /** The sub-command word `chance` in any ASCII case. */
  lemma ChanceToken(w: string)
    requires AsciiCaseVariant(w, "chance")
    ensures Trimmed(w) && NoSeparator(w) && EqualsIgnoreCase(w, "chance")
  {
    CaseVariantEquals(w, "chance");
    forall k | 0 <= k < |w|
      ensures !IsSeparator(w[k]) && !IsBlank(w[k])
    {
      assert IsAsciiLower("chance"[k]);
    }
  }

  /** `clickassist` alone reports the status. */
  lemma StatusExample()
    ensures Parse(Some("clickassist")) == Status
  {
    assert [] + Keyword + [] == "clickassist";
    KeywordToken(Keyword);
    BareKeyword([], Keyword, []);
  }

  /** `clickassist on` enables. */
  lemma OnExample()
    ensures Parse(Some("clickassist on")) == Enable
  {
    assert [] + Keyword + " " + "on" + [] == "clickassist on";
    KeywordToken(Keyword);
    WordIsToken("on");
    KeywordThenArguments([], Keyword, " ", "on", []);
    SplitWord("on");
    assert EqualsIgnoreCase("on", "on");
  }

  /** Keyword and sub-command in any case, padded with blanks: `  ClickAssist ENABLE ` enables. */
  lemma MixedCaseExample()
    ensures Parse(Some("  ClickAssist ENABLE ")) == Enable
  {
    assert "  " + "ClickAssist" + " " + "ENABLE" + " " == "  ClickAssist ENABLE ";
    assert AsciiCaseVariant("ClickAssist", Keyword);
    KeywordToken("ClickAssist");
    assert AsciiCaseVariant("ENABLE", "enable");
    CaseVariantEquals("ENABLE", "enable");
    WordIsToken("ENABLE");
    KeywordThenArguments("  ", "ClickAssist", " ", "ENABLE", " ");
    SplitWord("ENABLE");
  }

  /** `clickassist off` disables. */
  lemma OffExample()
    ensures Parse(Some("clickassist off")) == Disable
  {
    assert [] + Keyword + " " + "off" + [] == "clickassist off";
    KeywordToken(Keyword);
    WordIsToken("off");
    KeywordThenArguments([], Keyword, " ", "off", []);
    SplitWord("off");
    assert EqualsIgnoreCase("off", "off");
    assert !EqualsIgnoreCase("off", "on");
    assert !EqualsIgnoreCase("off", "enable");
  }

  /** The keyword is a prefix, not a token: `clickassistx on` enables. */
  lemma PrefixNotTokenExample()
    ensures Parse(Some("clickassistx on")) == Enable
  {
    assert [] + "clickassistx" + " " + "on" + [] == "clickassistx on";
    WordIsToken("clickassistx");
    WordIsToken("on");
    KeywordThenArguments([], "clickassistx", " ", "on", []);
    SplitWord("on");
    assert EqualsIgnoreCase("on", "on");
  }

  /** `clickassist chance 65` asks for 65 percent. */
  lemma ChanceExample()
    ensures Parse(Some("clickassist chance 65")) == Chance(Some(Num(65.0)))
  {
    assert JavaNumber.DecimalDigits(65) == "65";
    assert "clickassist chance " + "65" == "clickassist chance 65";
    ChancePercent(65);
  }

  /** `clickassist chance banana` is handled, with a malformed number. */
  lemma MalformedChanceExample()
    ensures Parse(Some("clickassist chance banana")) == Chance(None)
  {
    assert "clickassist chance " + "banana" == "clickassist chance banana";
    WordIsToken("banana");
    ChanceLine("banana");
    JavaNumber.BananaIsMalformed();
  }

  /** `clickassist chance` without a number prints the usage. */
  lemma ChanceWithoutNumberExample()
    ensures Parse(Some("clickassist chance")) == Usage
  {
    assert [] + Keyword + " " + "chance" + [] == "clickassist chance";
    KeywordToken(Keyword);
    ChanceToken("chance");
    ChanceAloneIsUsage([], Keyword, " ", "chance", []);
  }

  /** The keyword token and `chance` with nothing after it. */
  lemma ChanceAloneIsUsage(pre: string, word: string, sep: string, w: string, post: string)
    requires AllBlank(pre) && AllBlank(post)
    requires NoSeparator(word) && LowerStartsWith(word, Keyword)
    requires sep != [] && AllSeparators(sep)
    requires w != [] && Trimmed(w) && NoSeparator(w) && EqualsIgnoreCase(w, "chance")
    ensures Parse(Some(pre + word + sep + w + post)) == Usage
  {
    assert [w] + [] == [w];
    SplitWord(w);
    ChanceWords(w, []);
    KeywordThenArguments(pre, word, sep, w, post);
  }

  /** A line that does not start with the keyword, or `null`, is left to other handlers. */
  lemma NotHandledExample()
    ensures Parse(Some("somethingElse")) == NotHandled
    ensures Parse(None) == NotHandled
  {
    assert [] + "somethingElse" + [] == "somethingElse";
    assert Trimmed("somethingElse");
    TrimPadded([], "somethingElse", []);
    assert LowerChar("somethingElse"[0]) != Keyword[0];
  }

  /**
   * The keyword token, `chance` in any case and one more token: the command
   * asks for the percentage that token parses to.
   */
  lemma ChanceCommand(pre: string, word: string, sep: string, cw: string, sep2: string, arg: string, post: string)
    requires AllBlank(pre) && AllBlank(post)
    requires NoSeparator(word) && LowerStartsWith(word, Keyword)
    requires sep != [] && AllSeparators(sep) && sep2 != [] && AllSeparators(sep2)
    requires cw != [] && Trimmed(cw) && NoSeparator(cw) && EqualsIgnoreCase(cw, "chance")
    requires arg != [] && Trimmed(arg) && NoSeparator(arg)
    ensures Parse(Some(pre + word + sep + cw + sep2 + arg + post)) == Chance(JavaNumber.ParseDouble(arg))
  {
    var rest := cw + sep2 + arg;
    RegroupChance(pre, word, sep, cw, sep2, arg, post);
    assert Trimmed(rest) by {
      assert rest[0] == cw[0];
      assert rest[|rest| - 1] == arg[|arg| - 1];
    }
    SplitWord(arg);
    SplitCons(cw, sep2, arg);
    ChanceWords(cw, [arg]);
    KeywordThenArguments(pre, word, sep, rest, post);
  }

  lemma RegroupChance(pre: string, word: string, sep: string, cw: string, sep2: string, arg: string, post: string)
    ensures pre + word + sep + cw + sep2 + arg + post == pre + word + sep + (cw + sep2 + arg) + post
  {
  }

  /** `chance N` for a whole number N asks for N percent. */
  lemma ChancePercent(n: nat)
    ensures Parse(Some("clickassist chance " + JavaNumber.DecimalDigits(n))) == Chance(Some(Num(n as real)))
  {
    var digits := JavaNumber.DecimalDigits(n);
    DigitsAreToken(digits);
    ChanceLine(digits);
    JavaNumber.ParseDecimalDigits(n);
  }

  /** A numeral is a single token. */
  lemma DigitsAreToken(digits: string)
    requires JavaNumber.AllDigits(digits) && digits != []
    ensures Trimmed(digits) && NoSeparator(digits)
  {
    JavaNumber.DigitsToken(digits);
    assert forall k :: 0 <= k < |digits| ==> JavaNumber.IsDigit(digits[k]);
  }

  /** `clickassist chance ARG` for a single token ARG is a chance command on ARG's parse. */
  lemma ChanceLine(arg: string)
    requires arg != [] && Trimmed(arg) && NoSeparator(arg)
    ensures Parse(Some("clickassist chance " + arg)) == Chance(JavaNumber.ParseDouble(arg))
  {
    var line := [] + Keyword + " " + "chance" + " " + arg + [];
    assert line == "clickassist chance " + arg;
    KeywordToken(Keyword);
    ChanceToken("chance");
    ChanceCommand([], Keyword, " ", "chance", " ", arg, []);
  }

  /** N percent is stored as N / 100, or 1 from 100 percent on. */
  lemma PercentStored(n: nat, current: real)
    requires 0.0 <= current <= 1.0
    ensures ChanceAfter(current, DivideBy100(Num(n as real))) == if n >= 100 then 1.0 else n as real / 100.0
  {
  }
}
