/**
Building a bash command line: `escape_bash_quotes` and `quote_bash_parm` of gen_misc.py and `create_command_string` of
gen_cmd.py, against a model of how a shell splits a line into words.

The shell follows sections 2.2.1 (escape character), 2.2.2 (single quotes), 2.2.3 (double quotes) and 2.3 (token
recognition) of the POSIX Shell Command Language.  A line that would be anything but a list of literal words, because it
holds an unquoted operator, expansion, pattern or comment, has no words here.
*/
module CommandString {

  import opened Options

  // ----- The shell -----

  datatype Mode = Plain | Escaped | Single | Double | DoubleEscaped

  /** The lexer's state: the words completed, the word in progress, and the quoting in force. */
  datatype Lexer = Failed | Lexer(words: seq<string>, word: Option<string>, mode: Mode)

  const START := Lexer([], None, Plain)

  predicate IsBlank(c: char) {
    c == ' ' || c == '\t'
  }

  /** Unquoted, these make a shell do something other than take them literally. */
  predicate IsActive(c: char) {
    c in "|&;<>()$`*?[]!{}\n"
  }

  /** These do so only at the start of a word. */
  predicate IsActiveFirst(c: char) {
    c == '#' || c == '~'
  }

  function Current(lexer: Lexer): string
    requires lexer.Lexer?
  {
    if lexer.word.Some? then lexer.word.value else []
  }

  function Append(lexer: Lexer, c: char, mode: Mode): Lexer
    requires lexer.Lexer?
  {
    Lexer(lexer.words, Some(Current(lexer) + [c]), mode)
  }

  function EndWord(lexer: Lexer): Lexer
    requires lexer.Lexer?
  {
    if lexer.word.Some? then Lexer(lexer.words + [lexer.word.value], None, Plain) else lexer
  }

  function Step(lexer: Lexer, c: char): Lexer {
    if lexer.Failed? then Failed
    else
      match lexer.mode
      case Plain =>
        if IsBlank(c) then EndWord(lexer)
        else if c == '\\' then Lexer(lexer.words, Some(Current(lexer)), Escaped)
        else if c == '\'' then Lexer(lexer.words, Some(Current(lexer)), Single)
        else if c == '"' then Lexer(lexer.words, Some(Current(lexer)), Double)
        else if IsActive(c) || (IsActiveFirst(c) && lexer.word.None?) then Failed
        else Append(lexer, c, Plain)
      case Escaped => if c == '\n' then Failed else Append(lexer, c, Plain)
      case Single => if c == '\'' then lexer.(mode := Plain) else Append(lexer, c, Single)
      case Double =>
        if c == '"' then lexer.(mode := Plain)
        else if c == '\\' then lexer.(mode := DoubleEscaped)
        else if c == '$' || c == '`' then Failed
        else Append(lexer, c, Double)
      case DoubleEscaped =>
        if c in "$`\"\\" then Append(lexer, c, Double)
        else if c == '\n' then Failed
        else Append(Append(lexer, '\\', Double), c, Double)
  }

  function Feed(lexer: Lexer, text: string): Lexer
    decreases |text|
  {
    if text == [] then lexer else Feed(Step(lexer, text[0]), text[1..])
  }

  function Finish(lexer: Lexer): Option<seq<string>> {
    if lexer.Lexer? && lexer.mode == Plain then Some(EndWord(lexer).words) else None
  }

  /** The words of a line. */
  function Words(text: string): Option<seq<string>> {
    Finish(Feed(START, text))
  }

  lemma {:induction false} FeedAppends(lexer: Lexer, a: string, b: string)
    ensures Feed(lexer, a + b) == Feed(Feed(lexer, a), b)
    decreases |a|
  {
    if a == [] {
      assert a + b == b;
    } else {
      assert (a + b)[1..] == a[1..] + b;
      FeedAppends(Step(lexer, a[0]), a[1..], b);
    }
  }

  /** The same lexer with more words completed before. */
  function After(words: seq<string>, lexer: Lexer): Lexer {
    if lexer.Failed? then Failed else lexer.(words := words + lexer.words)
  }

  lemma {:induction false} FeedAfter(words: seq<string>, lexer: Lexer, text: string)
    ensures Feed(After(words, lexer), text) == After(words, Feed(lexer, text))
    decreases |text|
  {
    if text != [] {
      if lexer.Lexer? && lexer.word.Some? {
        assert words + (lexer.words + [lexer.word.value]) == (words + lexer.words) + [lexer.word.value];
      }
      assert Step(After(words, lexer), text[0]) == After(words, Step(lexer, text[0]));
      FeedAfter(words, Step(lexer, text[0]), text[1..]);
    }
  }

  /** A space after a line that has words starts afresh: the words that follow are those of the rest. */
  lemma WordsJoin(a: string, b: string)
    requires Words(a).Some?
    ensures Words(a + " " + b) == if Words(b).Some? then Some(Words(a).value + Words(b).value) else None
  {
    var first := Feed(START, a);
    FeedAppends(START, a, " " + b);
    assert a + " " + b == a + (" " + b);
    FeedAppends(first, " ", b);
    assert " "[1..] == "";
    assert Feed(first, " ") == EndWord(first);
    assert After(Words(a).value, START) == EndWord(first);
    FeedAfter(Words(a).value, START, b);
    var second := Feed(START, b);
    if second.Lexer? && second.word.Some? {
      assert Words(a).value + (second.words + [second.word.value])
        == (Words(a).value + second.words) + [second.word.value];
    }
  }

  // ----- Quoting -----

  /** `escape_bash_quotes` */
  function EscapeQuotes(text: string): string
    decreases |text|
  {
    if text == [] then [] else (if text[0] == '\'' then "'\\''" else [text[0]]) + EscapeQuotes(text[1..])
  }

  predicate IsSpecial(c: char) {
    c in " '\"$*?[]+@!{}~|><"
  }

  predicate HasSpecial(text: string) {
    exists i :: 0 <= i < |text| && IsSpecial(text[i])
  }

  /** `quote_bash_parm` */
  function QuoteParm(parm: string): string {
    if HasSpecial(parm) then "'" + EscapeQuotes(parm) + "'"
    else if parm == "" then "''"
    else parm
  }

  lemma {:induction false} FeedEscaped(lexer: Lexer, text: string, word: string)
    requires lexer.Lexer? && lexer.mode == Single && lexer.word == Some(word)
    ensures Feed(lexer, EscapeQuotes(text)) == lexer.(word := Some(word + text))
    decreases |text|
  {
    if text == [] {
      assert word + text == word;
    } else {
      var c := text[0];
      var next := lexer.(word := Some(word + [c]));
      assert (word + [c]) + text[1..] == word + text;
      if c == '\'' {
        FeedAppends(lexer, "'\\''", EscapeQuotes(text[1..]));
        var q := "'\\''";
        assert q[1..] == "\\''" && q[1..][1..] == "''" && q[1..][1..][1..] == "'" && q[1..][1..][1..][1..] == "";
        assert Feed(lexer, q) == next;
      } else {
        FeedAppends(lexer, [c], EscapeQuotes(text[1..]));
        assert [c][1..] == "";
        assert Feed(lexer, [c]) == next;
      }
      FeedEscaped(next, text[1..], word + [c]);
    }
  }

  /** Single quoting undoes everything: inside a word, the quoted text is appended to it as it stands. */
  lemma FeedQuoted(lexer: Lexer, text: string)
    requires lexer.Lexer? && lexer.mode == Plain
    ensures Feed(lexer, "'" + EscapeQuotes(text) + "'") == Lexer(lexer.words, Some(Current(lexer) + text), Plain)
  {
    var quoting := Lexer(lexer.words, Some(Current(lexer)), Single);
    FeedAppends(lexer, "'" + EscapeQuotes(text), "'");
    FeedAppends(lexer, "'", EscapeQuotes(text));
    assert "'"[1..] == "";
    assert Feed(lexer, "'") == quoting;
    FeedEscaped(quoting, text, Current(lexer));
  }

  /** A character a shell takes literally anywhere in a word. */
  predicate IsOrdinary(c: char) {
    !IsBlank(c) && !IsActive(c) && c != '\\' && c != '\'' && c != '"'
  }

  predicate AllOrdinary(text: string) {
    forall i :: 0 <= i < |text| ==> IsOrdinary(text[i])
  }

  lemma {:induction false} FeedOrdinary(lexer: Lexer, text: string)
    requires lexer.Lexer? && lexer.mode == Plain && AllOrdinary(text)
    requires lexer.word.Some? || (text != [] && !IsActiveFirst(text[0]))
    ensures Feed(lexer, text) == Lexer(lexer.words, Some(Current(lexer) + text), Plain)
    decreases |text|
  {
    if text == [] {
      assert Current(lexer) + text == Current(lexer);
    } else {
      var next := Append(lexer, text[0], Plain);
      assert Current(next) + text[1..] == Current(lexer) + text;
      FeedOrdinary(next, text[1..]);
    }
  }

  // ----- What the quoting writes -----

  /** Text without single quotes stays as it is. */
  lemma {:induction false} EscapeQuotesKeeps(text: string)
    ensures '\'' !in text ==> EscapeQuotes(text) == text
    ensures |EscapeQuotes(text)| >= |text|
    decreases |text|
  {
    if text != [] {
      EscapeQuotesKeeps(text[1..]);
      assert text == [text[0]] + text[1..];
    }
  }

  lemma EscapeOne(c: char, rest: string)
    ensures EscapeQuotes([c] + rest) == (if c == '\'' then "'\\''" else [c]) + EscapeQuotes(rest)
  {
    assert ([c] + rest)[1..] == rest;
  }

  /** Each single quote becomes four characters: a quote, a backslash and two quotes. */
  lemma {:induction false} EscapeQuotesReplaces(a: string, b: string)
    ensures EscapeQuotes(a + ("'" + b)) == EscapeQuotes(a) + ("'\\''" + EscapeQuotes(b))
    decreases |a|
  {
    EscapeOne('\'', b);
    assert ['\''] + b == "'" + b;
    if a == [] {
      assert a + ("'" + b) == "'" + b;
      assert [] + ("'\\''" + EscapeQuotes(b)) == "'\\''" + EscapeQuotes(b);
    } else {
      var piece := if a[0] == '\'' then "'\\''" else [a[0]];
      Associate([a[0]], a[1..], "'" + b);
      assert [a[0]] + a[1..] == a;
      EscapeQuotesReplaces(a[1..], b);
      EscapeOne(a[0], a[1..] + ("'" + b));
      Associate(piece, EscapeQuotes(a[1..]), "'\\''" + EscapeQuotes(b));
    }
  }

  predicate HoldsAny(text: string, chars: string) {
    exists i :: 0 <= i < |text| && text[i] in chars
  }

  /** A parameter is left as it is exactly when it is not empty and holds none of the listed characters. */
  lemma QuoteParmExactly(parm: string)
    ensures QuoteParm(parm) == parm <==> parm != "" && !HoldsAny(parm, " '\"$*?[]+@!{}~|><")
  {
    EscapeQuotesKeeps(parm);
    assert HasSpecial(parm) <==> HoldsAny(parm, " '\"$*?[]+@!{}~|><");
  }

  // ----- What is lost when a value is not taken literally -----

  function Total(words: seq<string>): nat
    decreases |words|
  {
    if words == [] then 0 else Total(words[..|words| - 1]) + |words[|words| - 1]|
  }

  /** The characters taken so far. */
  function Taken(lexer: Lexer): nat
    requires lexer.Lexer?
  {
    Total(lexer.words) + |Current(lexer)| + if lexer.mode == DoubleEscaped then 1 else 0
  }

  lemma StepTakes(lexer: Lexer, c: char)
    requires lexer.Lexer? && Step(lexer, c).Lexer?
    ensures Taken(Step(lexer, c)) <= Taken(lexer) + 1
    ensures lexer.mode == Plain && !IsOrdinary(c) ==> Taken(Step(lexer, c)) == Taken(lexer)
  {
    if lexer.word.Some? {
      var all := lexer.words + [lexer.word.value];
      assert all[..|all| - 1] == lexer.words;
    }
  }

  lemma {:induction false} FeedTakes(lexer: Lexer, text: string)
    requires lexer.Lexer? && Feed(lexer, text).Lexer?
    ensures Taken(Feed(lexer, text)) <= Taken(lexer) + |text|
    decreases |text|
  {
    if text != [] {
      if Step(lexer, text[0]).Failed? {
        FailedStays(text[1..]);
      }
      StepTakes(lexer, text[0]);
      FeedTakes(Step(lexer, text[0]), text[1..]);
    }
  }

  lemma {:induction false} FailedStays(text: string)
    ensures Feed(Failed, text) == Failed
    decreases |text|
  {
    if text != [] {
      FailedStays(text[1..]);
    }
  }

  /** Text with a character that is not ordinary loses it, or is not literal at all. */
  lemma {:induction false} FeedLoses(lexer: Lexer, text: string)
    requires lexer.Lexer? && lexer.mode == Plain && !AllOrdinary(text)
    requires Feed(lexer, text).Lexer?
    ensures Taken(Feed(lexer, text)) < Taken(lexer) + |text|
    decreases |text|
  {
    var next := Step(lexer, text[0]);
    if next.Failed? {
      FailedStays(text[1..]);
    }
    StepTakes(lexer, text[0]);
    if IsOrdinary(text[0]) {
      FeedLoses(next, text[1..]);
    } else {
      FeedTakes(next, text[1..]);
    }
  }

  /** Inside a word, text that is not ordinary is not appended to the word as it stands. */
  lemma WordLoses(lexer: Lexer, text: string)
    requires lexer.Lexer? && lexer.mode == Plain && !AllOrdinary(text)
    ensures Finish(Feed(lexer, text)) != Some(lexer.words + [Current(lexer) + text])
  {
    var last := Feed(lexer, text);
    if last.Lexer? && last.mode == Plain {
      FeedLoses(lexer, text);
      assert Step(last, ' ') == EndWord(last);
      StepTakes(last, ' ');
      TotalOneMore(lexer.words, Current(lexer) + text);
    }
  }

  lemma TotalOneMore(words: seq<string>, word: string)
    ensures Total(words + [word]) == Total(words) + |word|
  {
    assert (words + [word])[..|words|] == words;
  }

  lemma WordsOfActiveFirst(text: string)
    requires text != [] && IsActiveFirst(text[0])
    ensures Words(text) == None
  {
    FailedStays(text[1..]);
  }

  /** Characters that a shell gives meaning to although `quote_bash_parm` does not quote for them. */
  predicate IsMissed(c: char) {
    c in "\\`;&()\t\n"
  }

  predicate HasMissed(text: string) {
    exists i :: 0 <= i < |text| && IsMissed(text[i])
  }

  lemma UnspecialIsOrdinaryExactly(text: string)
    requires !HasSpecial(text)
    ensures AllOrdinary(text) <==> !HasMissed(text)
    ensures text != [] ==> text[0] != '~'
  {
    forall c: char | !IsSpecial(c)
      ensures IsOrdinary(c) <==> !IsMissed(c)
    {
    }
    if text != [] {
      assert IsSpecial('~');
    }
  }

  /** The shell appends the quoted parameter, unchanged, to the word in progress exactly when it needed quotes and got
      them, or holds none of the characters that the list of special characters misses. */
  lemma QuoteInsideWordExactly(lexer: Lexer, parm: string)
    requires lexer.Lexer? && lexer.mode == Plain && lexer.word.Some?
    ensures Finish(Feed(lexer, QuoteParm(parm))) == Some(lexer.words + [Current(lexer) + parm])
            <==> HasSpecial(parm) || !HasMissed(parm)
  {
    if HasSpecial(parm) {
      FeedQuoted(lexer, parm);
    } else if parm == "" {
      FeedQuoted(lexer, "");
      assert "'" + EscapeQuotes("") + "'" == "''";
    } else {
      UnspecialIsOrdinaryExactly(parm);
      if AllOrdinary(parm) {
        FeedOrdinary(lexer, parm);
      } else {
        WordLoses(lexer, parm);
      }
    }
  }

  /** The shell gives the quoted parameter back as one unchanged word exactly when, moreover, a bare parameter does
      not begin a comment. */
  lemma QuoteExactly(parm: string)
    ensures Words(QuoteParm(parm)) == Some([parm])
            <==> HasSpecial(parm) || (!HasMissed(parm) && !("#" <= parm))
  {
    assert [] + parm == parm && [] + [parm] == [parm];
    if HasSpecial(parm) {
      FeedQuoted(START, parm);
    } else if parm == "" {
      FeedQuoted(START, "");
      assert "'" + EscapeQuotes("") + "'" == "''";
    } else {
      UnspecialIsOrdinaryExactly(parm);
      if "#" <= parm {
        WordsOfActiveFirst(parm);
      } else if AllOrdinary(parm) {
        FeedOrdinary(START, parm);
      } else {
        WordLoses(START, parm);
      }
    }
  }

  // ----- create_command_string -----

  lemma Associate<T>(a: seq<T>, b: seq<T>, c: seq<T>)
    ensures (a + b) + c == a + (b + c)
  {
  }

  datatype Opt = Opt(key: string, value: Option<string>)

  const ARG_DASHES := "arg_dashes"
  const ARG_DELIM := "arg_delim"

  /** str(value) */
  function Str(value: Option<string>): string {
    if value.Some? then value.value else "None"
  }

  /** `default_arg_delim` */
  function DefaultDelim(dashes: string): string {
    if dashes == "--" then "=" else " "
  }

  /** The value is in matching quotes, without a line break between them, but perhaps with one after them: this is what
      the regular expression of the source accepts. */
  predicate AlreadyQuoted(value: string) {
    || InQuotes(value)
    || (value != [] && value[|value| - 1] == '\n' && InQuotes(value[..|value| - 1]))
  }

  predicate InQuotes(value: string) {
    && |value| >= 2
    && (value[0] == '"' || value[0] == '\'')
    && value[|value| - 1] == value[0]
    && '\n' !in value
  }

  /** The value is the inner text between two equal quotes, and perhaps a line break. */
  predicate Wraps(value: string, inner: string) {
    && '\n' !in inner
    && (value == "'" + inner + "'" || value == "\"" + inner + "\""
        || value == "'" + inner + "'\n" || value == "\"" + inner + "\"\n")
  }

  lemma InQuotesWraps(value: string) returns (inner: string)
    requires InQuotes(value)
    ensures '\n' !in inner && (value == "'" + inner + "'" || value == "\"" + inner + "\"")
  {
    inner := value[1..|value| - 1];
    assert value == [value[0]] + inner + [value[0]];
  }

  /** Exactly which values count as quoted by the caller. */
  lemma AlreadyQuotedExactly(value: string)
    ensures AlreadyQuoted(value) <==> exists inner :: Wraps(value, inner)
  {
    if InQuotes(value) {
      var inner := InQuotesWraps(value);
      assert Wraps(value, inner);
    } else if AlreadyQuoted(value) {
      var inner := InQuotesWraps(value[..|value| - 1]);
      assert value == value[..|value| - 1] + "\n";
      assert "'" + inner + "'\n" == ("'" + inner + "'") + "\n" && "\"" + inner + "\"\n" == ("\"" + inner + "\"") + "\n";
      assert Wraps(value, inner);
    }
    forall inner | Wraps(value, inner)
      ensures AlreadyQuoted(value)
    {
      WrapsIsQuoted(value, inner);
    }
  }

  lemma WrapsIsQuoted(value: string, inner: string)
    requires Wraps(value, inner)
    ensures AlreadyQuoted(value)
  {
    if value[|value| - 1] == '\n' {
      assert value[..|value| - 1] == "'" + inner + "'" || value[..|value| - 1] == "\"" + inner + "\"";
    }
  }

  function ValueText(value: string): string {
    if AlreadyQuoted(value) then value else QuoteParm(value)
  }

  /** One option, with the dashes and the delimiter in force. */
  function OptionBody(o: Opt, dashes: string, delim: string): string {
    if o.value.Some? then dashes + o.key + delim + ValueText(o.value.value) else dashes + o.key
  }

  function OptionText(o: Opt, dashes: string, delim: string): string {
    " " + OptionBody(o, dashes, delim)
  }

  function OptionsText(options: seq<Opt>, dashes: string, delim: string): string
    decreases |options|
  {
    if options == [] then []
    else if options[0].key == ARG_DASHES then
      OptionsText(options[1..], Str(options[0].value), DefaultDelim(Str(options[0].value)))
    else if options[0].key == ARG_DELIM then OptionsText(options[1..], dashes, Str(options[0].value))
    else OptionText(options[0], dashes, delim) + OptionsText(options[1..], dashes, delim)
  }

  /** What one positional parameter adds to the command string. */
  function OnePosText(posParm: string): string {
    if posParm == "" then "" else " " + posParm
  }

  /** " ".join of the non-blank positional parameters, each after a space */
  function PosText(posParms: seq<string>): string
    decreases |posParms|
  {
    if posParms == [] then []
    else OnePosText(posParms[0]) + PosText(posParms[1..])
  }

  /** `create_command_string` */
  method CreateCommandString(command: string, posParms: seq<string>, options: seq<Opt>) returns (commandString: string)
    ensures commandString == command + OptionsText(options, "-", " ") + PosText(posParms)
    ensures commandString == JoinSpaces([command] + (PartsFrom(options, 0) + Nonblank(posParms)))
    ensures Words(command).Some? && (forall i :: 0 <= i < |posParms| ==> Words(posParms[i]).Some?)
            && (forall i :: 0 <= i < |options| ==> GoodAt(options, i))
            ==> Words(commandString) == Some(Words(command).value + WordsFrom(options, 0) + AllPosWords(posParms))
  {
    CommandTextIsJoin(command, posParms, options);
    if && Words(command).Some? && (forall i :: 0 <= i < |posParms| ==> Words(posParms[i]).Some?)
       && forall i :: 0 <= i < |options| ==> GoodAt(options, i)
    {
      CommandReadsBack(command, posParms, options);
    }
    commandString := AppendOptions(command, options);
    commandString := AppendPosParms(commandString, posParms);
  }

  /** The loop over the options. */
  method AppendOptions(command: string, options: seq<Opt>) returns (commandString: string)
    ensures commandString == command + OptionsText(options, "-", " ")
  {
    var dashes := "-";
    var delim := DefaultDelim(dashes);
    commandString := command;
    var i := 0;
    while i < |options|
      invariant 0 <= i <= |options|
      invariant commandString + OptionsText(options[i..], dashes, delim) == command + OptionsText(options, "-", " ")
    {
      assert options[i..][0] == options[i] && options[i..][1..] == options[i + 1..];
      var o := options[i];
      if o.key == ARG_DASHES {
        dashes := Str(o.value);
        delim := DefaultDelim(dashes);
      } else if o.key == ARG_DELIM {
        delim := Str(o.value);
      } else {
        Associate(commandString, OptionText(o, dashes, delim), OptionsText(options[i + 1..], dashes, delim));
        commandString := AppendOption(commandString, o, dashes, delim);
      }
      i := i + 1;
    }
    assert options[i..] == [] && commandString + [] == commandString;
  }

  /** The end of that loop's body. */
  method AppendOption(command: string, o: Opt, dashes: string, delim: string) returns (commandString: string)
    ensures commandString == command + OptionText(o, dashes, delim)
  {
    var body := dashes + o.key;
    if o.value.Some? {
      body := body + delim;
      if AlreadyQuoted(o.value.value) {
        body := body + o.value.value;
      } else {
        body := body + QuoteParm(o.value.value);
      }
    }
    assert body == OptionBody(o, dashes, delim);
    commandString := command + (" " + body);
  }

  method AppendPosParms(command: string, posParms: seq<string>) returns (commandString: string)
    ensures commandString == command + PosText(posParms)
  {
    commandString := command;
    var i := 0;
    while i < |posParms|
      invariant 0 <= i <= |posParms|
      invariant commandString + PosText(posParms[i..]) == command + PosText(posParms)
    {
      assert posParms[i..][0] == posParms[i] && posParms[i..][1..] == posParms[i + 1..];
      Associate(commandString, OnePosText(posParms[i]), PosText(posParms[i + 1..]));
      commandString := commandString + OnePosText(posParms[i]);
      i := i + 1;
    }
    assert posParms[i..] == [] && commandString + [] == commandString;
  }

  // ----- What the shell makes of it -----

  /** A nonempty word without any character that a shell treats specially. */
  predicate PlainWord(word: string) {
    word != [] && AllOrdinary(word) && !IsActiveFirst(word[0])
  }

  /** The dashes, the name and the delimiter are themselves plain. */
  predicate PlainOption(o: Opt, dashes: string, delim: string) {
    PlainWord(dashes + o.key) && (delim == " " || AllOrdinary(delim))
  }

  /** The value comes through: the caller did not quote it, and it needs quotes that it gets, or needs none. */
  predicate Literal(value: string, firstOfWord: bool) {
    && !AlreadyQuoted(value)
    && (HasSpecial(value) || (!HasMissed(value) && (firstOfWord ==> !("#" <= value))))
  }

  /** The words the option is meant to become. */
  function OptionWords(o: Opt, dashes: string, delim: string): seq<string> {
    if o.value.None? then [dashes + o.key]
    else if delim == " " then [dashes + o.key, o.value.value]
    else [dashes + o.key + delim + o.value.value]
  }

  lemma FeedPlainWord(word: string)
    requires PlainWord(word)
    ensures Feed(START, word) == Lexer([], Some(word), Plain) && Words(word) == Some([word])
  {
    FeedOrdinary(START, word);
    assert [] + word == word && [] + [word] == [word];
  }

  lemma QuotedIsNotOrdinary(value: string)
    requires AlreadyQuoted(value)
    ensures !AllOrdinary(value)
  {
    assert !IsOrdinary(value[0]);
  }

  /** Inside a word: the value comes through exactly when it is literal. */
  lemma ValueInsideWordExactly(word: string, value: string)
    ensures Finish(Feed(Lexer([], Some(word), Plain), ValueText(value))) == Some([word + value])
            <==> Literal(value, false)
  {
    var lexer := Lexer([], Some(word), Plain);
    assert [] + [word + value] == [word + value];
    if AlreadyQuoted(value) {
      QuotedIsNotOrdinary(value);
      WordLoses(lexer, value);
    } else {
      QuoteInsideWordExactly(lexer, value);
    }
  }

  lemma ValueAsWordExactly(value: string)
    ensures Words(ValueText(value)) == Some([value]) <==> Literal(value, true)
  {
    if AlreadyQuoted(value) {
      QuotedIsNotOrdinary(value);
      WordLoses(START, value);
      assert [] + value == value && [] + [value] == [value];
    } else {
      QuoteExactly(value);
    }
  }

  lemma SpacedOptionExactly(head: string, value: string)
    requires PlainWord(head)
    ensures Words(head + " " + ValueText(value)) == Some([head, value]) <==> Literal(value, true)
  {
    FeedPlainWord(head);
    WordsJoin(head, ValueText(value));
    ValueAsWordExactly(value);
    if Words(ValueText(value)).Some? {
      SecondWord(head, Words(ValueText(value)).value, value);
    }
  }

  lemma SecondWord(head: string, words: seq<string>, value: string)
    ensures [head] + words == [head, value] <==> words == [value]
  {
    assert ([head] + words)[1..] == words && [head, value][1..] == [value] && [head] + [value] == [head, value];
  }

  lemma JoinedOptionExactly(head: string, delim: string, value: string)
    requires PlainWord(head) && AllOrdinary(delim)
    ensures Words(head + delim + ValueText(value)) == Some([head + delim + value]) <==> Literal(value, false)
  {
    var lexer := Lexer([], Some(head), Plain);
    FeedPlainWord(head);
    FeedOrdinary(lexer, delim);
    FeedAppends(START, head, delim + ValueText(value));
    FeedAppends(lexer, delim, ValueText(value));
    Associate(head, delim, ValueText(value));
    ValueInsideWordExactly(head + delim, value);
  }

  /** One option: the shell reads back the dashes, the name and the value exactly when the value is literal. */
  lemma OptionExactly(o: Opt, dashes: string, delim: string)
    requires PlainOption(o, dashes, delim) && o.value.Some?
    ensures Words(dashes + o.key + delim + ValueText(o.value.value)) == Some(OptionWords(o, dashes, delim))
            <==> Literal(o.value.value, delim == " ")
  {
    if delim == " " {
      SpacedOptionExactly(dashes + o.key, o.value.value);
    } else {
      JoinedOptionExactly(dashes + o.key, delim, o.value.value);
    }
  }

  /** Every option is plain and literal under the dashes and delimiter in force when it is reached. */
  predicate GoodOptions(options: seq<Opt>, dashes: string, delim: string)
    decreases |options|
  {
    if options == [] then true
    else if options[0].key == ARG_DASHES then
      GoodOptions(options[1..], Str(options[0].value), DefaultDelim(Str(options[0].value)))
    else if options[0].key == ARG_DELIM then GoodOptions(options[1..], dashes, Str(options[0].value))
    else
      && PlainOption(options[0], dashes, delim)
      && (options[0].value.Some? ==> Literal(options[0].value.value, delim == " "))
      && GoodOptions(options[1..], dashes, delim)
  }

  function AllOptionWords(options: seq<Opt>, dashes: string, delim: string): seq<string>
    decreases |options|
  {
    if options == [] then []
    else if options[0].key == ARG_DASHES then
      AllOptionWords(options[1..], Str(options[0].value), DefaultDelim(Str(options[0].value)))
    else if options[0].key == ARG_DELIM then AllOptionWords(options[1..], dashes, Str(options[0].value))
    else OptionWords(options[0], dashes, delim) + AllOptionWords(options[1..], dashes, delim)
  }

  function AllPosWords(posParms: seq<string>): seq<string>
    requires forall i :: 0 <= i < |posParms| ==> Words(posParms[i]).Some?
    decreases |posParms|
  {
    if posParms == [] then [] else Words(posParms[0]).value + AllPosWords(posParms[1..])
  }

  lemma {:induction false} OptionsGivenBack(line: string, options: seq<Opt>, dashes: string, delim: string)
    requires Words(line).Some? && GoodOptions(options, dashes, delim)
    ensures Words(line + OptionsText(options, dashes, delim))
            == Some(Words(line).value + AllOptionWords(options, dashes, delim))
    decreases |options|
  {
    if options == [] {
      assert line + [] == line && Words(line).value + [] == Words(line).value;
    } else if options[0].key == ARG_DASHES {
      OptionsGivenBack(line, options[1..], Str(options[0].value), DefaultDelim(Str(options[0].value)));
    } else if options[0].key == ARG_DELIM {
      OptionsGivenBack(line, options[1..], dashes, Str(options[0].value));
    } else {
      var o := options[0];
      var next := line + OptionText(o, dashes, delim);
      OneOptionGivenBack(line, o, dashes, delim);
      OptionsGivenBack(next, options[1..], dashes, delim);
      var rest := AllOptionWords(options[1..], dashes, delim);
      Associate(Words(line).value, OptionWords(o, dashes, delim), rest);
      Associate(line, OptionText(o, dashes, delim), OptionsText(options[1..], dashes, delim));
    }
  }

  lemma OptionBodyWords(o: Opt, dashes: string, delim: string)
    requires PlainOption(o, dashes, delim)
    requires o.value.Some? ==> Literal(o.value.value, delim == " ")
    ensures Words(OptionBody(o, dashes, delim)) == Some(OptionWords(o, dashes, delim))
  {
    if o.value.Some? {
      OptionExactly(o, dashes, delim);
    } else {
      FeedPlainWord(dashes + o.key);
    }
  }

  lemma OneOptionGivenBack(line: string, o: Opt, dashes: string, delim: string)
    requires Words(line).Some? && PlainOption(o, dashes, delim)
    requires o.value.Some? ==> Literal(o.value.value, delim == " ")
    ensures Words(line + OptionText(o, dashes, delim)) == Some(Words(line).value + OptionWords(o, dashes, delim))
  {
    OptionBodyWords(o, dashes, delim);
    WordsJoin(line, OptionBody(o, dashes, delim));
    Associate(line, " ", OptionBody(o, dashes, delim));
  }

  lemma OnePosGivenBack(line: string, posParm: string)
    requires Words(line).Some? && Words(posParm).Some?
    ensures Words(line + OnePosText(posParm)) == Some(Words(line).value + Words(posParm).value)
  {
    WordsJoin(line, posParm);
    if posParm == "" {
      assert line + "" == line && Words(line).value + [] == Words(line).value;
    } else {
      assert line + " " + posParm == line + (" " + posParm);
    }
  }

  lemma {:induction false} PosParmsGivenBack(line: string, posParms: seq<string>)
    requires Words(line).Some? && forall i :: 0 <= i < |posParms| ==> Words(posParms[i]).Some?
    ensures Words(line + PosText(posParms)) == Some(Words(line).value + AllPosWords(posParms))
    decreases |posParms|
  {
    if posParms == [] {
      assert line + [] == line && Words(line).value + [] == Words(line).value;
    } else {
      var one, rest := OnePosText(posParms[0]), PosText(posParms[1..]);
      OnePosGivenBack(line, posParms[0]);
      PosParmsGivenBack(line + one, posParms[1..]);
      Associate(line, one, rest);
      Associate(Words(line).value, Words(posParms[0]).value, AllPosWords(posParms[1..]));
    }
  }

  /** The shell splits the command string into the words of the command, then those each option is meant to become, in
      order and under the dashes and delimiter in force, then those of the positional parameters. */
  lemma CommandGivenBack(command: string, posParms: seq<string>, options: seq<Opt>)
    requires Words(command).Some? && forall i :: 0 <= i < |posParms| ==> Words(posParms[i]).Some?
    requires GoodOptions(options, "-", " ")
    ensures Words(command + OptionsText(options, "-", " ") + PosText(posParms))
            == Some(Words(command).value + AllOptionWords(options, "-", " ") + AllPosWords(posParms))
  {
    OptionsGivenBack(command, options, "-", " ");
    PosParmsGivenBack(command + OptionsText(options, "-", " "), posParms);
  }

  /** A value that the caller has put in single quotes is taken from between them. */
  lemma CallerQuotesAreHonoured(word: string, inner: string)
    requires '\'' !in inner && '\n' !in inner
    ensures Finish(Feed(Lexer([], Some(word), Plain), ValueText("'" + inner + "'"))) == Some([word + inner])
  {
    var value := "'" + inner + "'";
    WrapsIsQuoted(value, inner);
    EscapeQuotesKeeps(inner);
    FeedQuoted(Lexer([], Some(word), Plain), inner);
    assert [] + [word + inner] == [word + inner];
  }

  // ----- Dashes and delimiters, by what the options say before -----

  /** The dashes for the option at i: those that the last "arg_dashes" before it gives, or one dash. */
  function DashesAt(options: seq<Opt>, i: nat): string
    requires i <= |options|
    decreases i
  {
    if i == 0 then "-"
    else if options[i - 1].key == "arg_dashes" then
      if options[i - 1].value.Some? then options[i - 1].value.value else "None"
    else DashesAt(options, i - 1)
  }

  /** The delimiter for the option at i: the one that the last "arg_delim" gives, unless an "arg_dashes" comes after
      it, which brings an equals sign for two dashes and otherwise a space. */
  function DelimAt(options: seq<Opt>, i: nat): string
    requires i <= |options|
    decreases i
  {
    if i == 0 then " "
    else if options[i - 1].key == "arg_delim" then
      if options[i - 1].value.Some? then options[i - 1].value.value else "None"
    else if options[i - 1].key == "arg_dashes" then if options[i - 1].value == Some("--") then "=" else " "
    else DelimAt(options, i - 1)
  }

  predicate IsSetting(o: Opt) {
    o.key == "arg_dashes" || o.key == "arg_delim"
  }

  /** The words of the option at i: its name after the dashes, and its value in a word of its own, or joined to the
      name. */
  function WordsAt(options: seq<Opt>, i: nat): seq<string>
    requires i < |options|
  {
    var o, dashes, delim := options[i], DashesAt(options, i), DelimAt(options, i);
    if IsSetting(o) then []
    else if o.value.None? then [dashes + o.key]
    else if delim == " " then [dashes + o.key, o.value.value]
    else [dashes + o.key + delim + o.value.value]
  }

  function WordsFrom(options: seq<Opt>, i: nat): seq<string>
    requires i <= |options|
    decreases |options| - i
  {
    if i == |options| then [] else WordsAt(options, i) + WordsFrom(options, i + 1)
  }

  /** The option at i is plain, and its value literal. */
  predicate GoodAt(options: seq<Opt>, i: nat)
    requires i < |options|
  {
    var o, dashes, delim := options[i], DashesAt(options, i), DelimAt(options, i);
    IsSetting(o) || (PlainOption(o, dashes, delim) && (o.value.Some? ==> Literal(o.value.value, delim == " ")))
  }

  lemma {:induction false} InForce(options: seq<Opt>, i: nat)
    requires i <= |options|
    ensures AllOptionWords(options[i..], DashesAt(options, i), DelimAt(options, i)) == WordsFrom(options, i)
    decreases |options| - i
  {
    if i < |options| {
      var rest := options[i..];
      assert rest[1..] == options[i + 1..] && rest[0] == options[i];
      InForce(options, i + 1);
      if IsSetting(options[i]) {
        assert [] + WordsFrom(options, i + 1) == WordsFrom(options, i + 1);
      }
    }
  }

  lemma {:induction false} GoodInForce(options: seq<Opt>, i: nat)
    requires i <= |options| && forall k :: i <= k < |options| ==> GoodAt(options, k)
    ensures GoodOptions(options[i..], DashesAt(options, i), DelimAt(options, i))
    decreases |options| - i
  {
    if i < |options| {
      var rest := options[i..];
      assert rest[1..] == options[i + 1..] && rest[0] == options[i];
      GoodInForce(options, i + 1);
      assert GoodAt(options, i);
    }
  }

  /** The shell splits the command string into the words of the command, then, option by option, the name and value
      under the dashes and delimiter that the options before it set, then the words of the positional parameters. */
  lemma CommandReadsBack(command: string, posParms: seq<string>, options: seq<Opt>)
    requires Words(command).Some? && forall i :: 0 <= i < |posParms| ==> Words(posParms[i]).Some?
    requires forall i :: 0 <= i < |options| ==> GoodAt(options, i)
    ensures Words(command + OptionsText(options, "-", " ") + PosText(posParms))
            == Some(Words(command).value + WordsFrom(options, 0) + AllPosWords(posParms))
  {
    assert options[0..] == options;
    InForce(options, 0);
    GoodInForce(options, 0);
    CommandGivenBack(command, posParms, options);
  }

  /** No setting stands between j and i. */
  predicate NoSettingBetween(options: seq<Opt>, j: nat, i: nat) {
    forall k :: j < k < i && k < |options| ==> !IsSetting(options[k])
  }

  lemma {:induction false} LastDashes(options: seq<Opt>, j: nat, i: nat)
    requires j < i <= |options| && options[j].key == "arg_dashes" && NoSettingBetween(options, j, i)
    ensures options[j].value.Some? ==> DashesAt(options, i) == options[j].value.value
    ensures DelimAt(options, i) == if options[j].value == Some("--") then "=" else " "
    decreases i
  {
    if j + 1 < i {
      LastDashes(options, j, i - 1);
    }
  }

  /** After "arg_dashes" with two dashes, and no setting since, name and value are one word with an equals sign
      between them; after any other dashes they are two words. */
  lemma DashesDecide(options: seq<Opt>, j: nat, i: nat)
    requires j < i < |options| && NoSettingBetween(options, j, i) && !IsSetting(options[i])
    requires options[j].key == "arg_dashes" && options[j].value.Some? && options[i].value.Some?
    ensures options[j].value.value == "--" ==>
              WordsAt(options, i) == ["--" + options[i].key + "=" + options[i].value.value]
    ensures options[j].value.value != "--" ==>
              WordsAt(options, i) == [options[j].value.value + options[i].key, options[i].value.value]
  {
    LastDashes(options, j, i);
  }

  // ----- The text of the positional parameters -----

  function Nonblank(posParms: seq<string>): seq<string>
    decreases |posParms|
  {
    if posParms == [] then [] else (if posParms[0] == "" then [] else [posParms[0]]) + Nonblank(posParms[1..])
  }

  /** " ".join(parts) */
  function JoinSpaces(parts: seq<string>): string
    requires parts != []
    decreases |parts|
  {
    if |parts| == 1 then parts[0] else parts[0] + " " + JoinSpaces(parts[1..])
  }

  /** The non-blank positional parameters follow the command, one space before each. */
  lemma {:induction false} PosTextIsJoin(command: string, posParms: seq<string>)
    ensures command + PosText(posParms) == JoinSpaces([command] + Nonblank(posParms))
    decreases |posParms|
  {
    if posParms == [] {
      assert [command] + Nonblank(posParms) == [command] && command + [] == command;
    } else if posParms[0] == "" {
      PosTextIsJoin(command, posParms[1..]);
      assert [] + PosText(posParms[1..]) == PosText(posParms[1..]);
      assert [] + Nonblank(posParms[1..]) == Nonblank(posParms[1..]);
    } else {
      PosTextIsJoin(posParms[0], posParms[1..]);
      var rest := [posParms[0]] + Nonblank(posParms[1..]);
      assert ([command] + rest)[1..] == rest;
      Associate(command, " ", JoinSpaces(rest));
      Associate(" ", posParms[0], PosText(posParms[1..]));
    }
  }

  // ----- The text of the whole command -----

  /** What the option at i adds to the text. */
  function PartAt(options: seq<Opt>, i: nat): seq<string>
    requires i < |options|
  {
    var o, dashes, delim := options[i], DashesAt(options, i), DelimAt(options, i);
    if IsSetting(o) then []
    else if o.value.None? then [dashes + o.key]
    else [dashes + o.key + delim + ValueText(o.value.value)]
  }

  function PartsFrom(options: seq<Opt>, i: nat): seq<string>
    requires i <= |options|
    decreases |options| - i
  {
    if i == |options| then [] else PartAt(options, i) + PartsFrom(options, i + 1)
  }

  lemma JoinTwo(first: string, second: string, rest: seq<string>)
    ensures JoinSpaces([first] + ([second] + rest)) == first + (" " + JoinSpaces([second] + rest))
  {
    var parts := [first] + ([second] + rest);
    assert parts[1..] == [second] + rest;
    Associate(first, " ", JoinSpaces([second] + rest));
  }

  /** Joining the first two parts beforehand changes nothing. */
  lemma JoinEarly(first: string, second: string, rest: seq<string>)
    ensures JoinSpaces([first + (" " + second)] + rest) == JoinSpaces([first] + ([second] + rest))
  {
    JoinTwo(first, second, rest);
    if rest == [] {
      assert [second] + rest == [second] && [first + (" " + second)] + rest == [first + (" " + second)];
    } else {
      assert [second] + rest == [second] + ([rest[0]] + rest[1..]);
      assert [first + (" " + second)] + rest == [first + (" " + second)] + ([rest[0]] + rest[1..]);
      JoinTwo(second, rest[0], rest[1..]);
      JoinTwo(first + (" " + second), rest[0], rest[1..]);
      Associate(first, " " + second, " " + JoinSpaces([rest[0]] + rest[1..]));
      Associate(" ", second, " " + JoinSpaces([rest[0]] + rest[1..]));
    }
  }

  lemma {:induction false} OptionsTextIsJoin(line: string, options: seq<Opt>, i: nat, rest: seq<string>)
    requires i <= |options|
    ensures JoinSpaces([line + OptionsText(options[i..], DashesAt(options, i), DelimAt(options, i))] + rest)
            == JoinSpaces([line] + (PartsFrom(options, i) + rest))
    decreases |options| - i
  {
    var text := OptionsText(options[i..], DashesAt(options, i), DelimAt(options, i));
    if i == |options| {
      assert line + [] == line && [] + rest == rest;
    } else {
      var after := options[i..];
      assert after[1..] == options[i + 1..] && after[0] == options[i];
      var more := OptionsText(options[i + 1..], DashesAt(options, i + 1), DelimAt(options, i + 1));
      if IsSetting(options[i]) {
        OptionsTextIsJoin(line, options, i + 1, rest);
        assert [] + PartsFrom(options, i + 1) == PartsFrom(options, i + 1);
      } else {
        var part := OptionBody(options[i], DashesAt(options, i), DelimAt(options, i));
        Associate(line, " " + part, more);
        OptionsTextIsJoin(line + (" " + part), options, i + 1, rest);
        JoinEarly(line, part, PartsFrom(options, i + 1) + rest);
        Associate([part], PartsFrom(options, i + 1), rest);
      }
    }
  }

  /** The command string is the command, the options and the non-blank positional parameters, one space between each. */
  lemma CommandTextIsJoin(command: string, posParms: seq<string>, options: seq<Opt>)
    ensures command + OptionsText(options, "-", " ") + PosText(posParms)
            == JoinSpaces([command] + (PartsFrom(options, 0) + Nonblank(posParms)))
  {
    assert options[0..] == options;
    PosTextIsJoin(command + OptionsText(options, "-", " "), posParms);
    OptionsTextIsJoin(command, options, 0, Nonblank(posParms));
  }
}
