/**
 Copyable commands. The printer quotes each argument; the reader is the token recognition of the POSIX.1-2017 Shell
 Command Language, sections 2.2.1 to 2.2.3 and 2.3, followed by quote removal.
 */
module ShellQuoting {
  import opened Strings
  import opened Wrappers

  // ---- Printer -----------------------------------------------------------------------------------------------------

  const SINGLE_QUOTE := '\''

  /** Leaves the quotes, gives a single quote inside double quotes, and reopens them. */
  const ESCAPED_SINGLE_QUOTE := "'\"'\"'"

  predicate IsBareChar(c: char) {
    || 'a' <= c <= 'z' || 'A' <= c <= 'Z' || '0' <= c <= '9' || c == '_'
    || c == '.' || c == '/' || c == ':' || c == '@' || c == '=' || c == '+' || c == '-'
  }

  predicate IsBare(value: string) {
    value != "" && forall i | 0 <= i < |value| :: IsBareChar(value[i])
  }

  function Escape(value: string): string {
    if value == "" then ""
    else (if value[0] == SINGLE_QUOTE then ESCAPED_SINGLE_QUOTE else [value[0]]) + Escape(value[1..])
  }

  function QuoteShellArgument(value: string): string {
    if IsBare(value) then value else [SINGLE_QUOTE] + Escape(value) + [SINGLE_QUOTE]
  }

  function Quoted(words: seq<string>): seq<string> {
    seq(|words|, i requires 0 <= i < |words| => QuoteShellArgument(words[i]))
  }

  function FormatCopyableCommand(command: string, args: seq<string>): string {
    JoinWith(Quoted([command] + args), " ")
  }

  // ---- Reader ------------------------------------------------------------------------------------------------------

  /** Why a line is not one simple command made of literal words. */
  datatype Refusal = Unterminated | DanglingBackslash | Operator(c: char) | Expansion(c: char)

  datatype Mode = Between | InWord | InSingleQuotes | InDoubleQuotes | InComment

  predicate StartsExpansion(c: char) {
    c == '$' || c == '`'
  }

  predicate StartsOperator(c: char) {
    c == '|' || c == '&' || c == ';' || c == '<' || c == '>' || c == '(' || c == ')' || c == '\n'
  }

  /** What a backslash inside double quotes escapes (section 2.2.3). */
  predicate EscapableInDoubleQuotes(c: char) {
    StartsExpansion(c) || c == '"' || c == '\\' || c == '\n'
  }

  function Scan(s: string, mode: Mode, word: string, words: seq<string>): Result<seq<string>, Refusal>
    decreases |s|
  {
    if s == "" then
      match mode
      case Between => Ok(words)
      case InComment => Ok(words)
      case InWord => Ok(words + [word])
      case _ => Err(Unterminated)
    else
      var c, rest := s[0], s[1..];
      match mode
      case InSingleQuotes =>
        if c == '\'' then Scan(rest, InWord, word, words) else Scan(rest, mode, word + [c], words)
      case InDoubleQuotes =>
        if c == '"' then Scan(rest, InWord, word, words)
        else if StartsExpansion(c) then Err(Expansion(c))
        else if c == '\\' && rest != "" && EscapableInDoubleQuotes(rest[0]) then
          Scan(rest[1..], mode, if rest[0] == '\n' then word else word + [rest[0]], words)
        else Scan(rest, mode, word + [c], words)
      case InComment =>
        if c == '\n' then Err(Operator(c)) else Scan(rest, mode, word, words)
      case _ =>
        if c == '\\' then
          if rest == "" then Err(DanglingBackslash)
          else if rest[0] == '\n' then Scan(rest[1..], mode, word, words)
          else Scan(rest[1..], InWord, word + [rest[0]], words)
        else if c == '\'' then Scan(rest, InSingleQuotes, word, words)
        else if c == '"' then Scan(rest, InDoubleQuotes, word, words)
        else if StartsExpansion(c) then Err(Expansion(c))
        else if StartsOperator(c) then Err(Operator(c))
        else if IsBlank(c) then Scan(rest, Between, "", if mode == InWord then words + [word] else words)
        else if c == '#' && mode == Between then Scan(rest, InComment, "", words)
        else Scan(rest, InWord, word + [c], words)
  }

  function Tokenize(s: string): Result<seq<string>, Refusal> {
    Scan(s, Between, "", [])
  }

  // ---- Round trip --------------------------------------------------------------------------------------------------

  lemma {:induction false} BareScans(value: string, rest: string, mode: Mode, word: string, words: seq<string>)
    requires mode in {Between, InWord}
    requires forall i | 0 <= i < |value| :: IsBareChar(value[i])
    ensures value != "" ==> Scan(value + rest, mode, word, words) == Scan(rest, InWord, word + value, words)
    decreases value
  {
    if value != "" {
      var c, more := value[0], value[1..];
      assert IsBareChar(c);
      assert (value + rest)[0] == c && (value + rest)[1..] == more + rest;
      assert (word + [c]) + more == word + value;
      assert Scan(value + rest, mode, word, words) == Scan(more + rest, InWord, word + [c], words);
      if more == "" {
        assert more + rest == rest && (word + [c]) + more == word + [c];
      } else {
        BareScans(more, rest, InWord, word + [c], words);
      }
    }
  }

  lemma EscapedQuoteScans(rest: string, word: string, words: seq<string>)
    ensures Scan(ESCAPED_SINGLE_QUOTE + rest, InSingleQuotes, word, words)
            == Scan(rest, InSingleQuotes, word + ['\''], words)
  {
    var s := ESCAPED_SINGLE_QUOTE + rest;
    assert s[0] == '\'' && s[1] == '"' && s[2] == '\'' && s[3] == '"' && s[4] == '\'' && s[5..] == rest;
    assert s[1..][1..] == s[2..] && s[2..][1..] == s[3..] && s[3..][1..] == s[4..] && s[4..][1..] == rest;
    assert Scan(s, InSingleQuotes, word, words) == Scan(s[1..], InWord, word, words);
    assert Scan(s[1..], InWord, word, words) == Scan(s[2..], InDoubleQuotes, word, words);
    assert Scan(s[2..], InDoubleQuotes, word, words) == Scan(s[3..], InDoubleQuotes, word + ['\''], words);
    assert Scan(s[3..], InDoubleQuotes, word + ['\''], words) == Scan(s[4..], InWord, word + ['\''], words);
  }

  lemma {:induction false} EscapedScans(value: string, rest: string, word: string, words: seq<string>)
    ensures Scan(Escape(value) + (['\''] + rest), InSingleQuotes, word, words)
              == Scan(rest, InWord, word + value, words)
    decreases value
  {
    if value == "" {
      assert Escape(value) + (['\''] + rest) == ['\''] + rest;
      assert (['\''] + rest)[1..] == rest && word + value == word;
    } else {
      var c, tail := value[0], Escape(value[1..]) + (['\''] + rest);
      assert word + [c] + value[1..] == word + value;
      EscapedScans(value[1..], rest, word + [c], words);
      if c == SINGLE_QUOTE {
        assert Escape(value) + (['\''] + rest) == ESCAPED_SINGLE_QUOTE + tail;
        EscapedQuoteScans(tail, word, words);
      } else {
        var s := Escape(value) + (['\''] + rest);
        assert s == [c] + tail;
        assert s[0] == c && s[1..] == tail;
      }
    }
  }

  /** A quoted argument reads back as that argument wherever a word may start, whatever follows it. */
  lemma QuotedScans(value: string, rest: string, words: seq<string>)
    ensures Scan(QuoteShellArgument(value) + rest, Between, "", words) == Scan(rest, InWord, value, words)
  {
    hide Escape;
    if IsBare(value) {
      BareScans(value, rest, Between, "", words);
      assert "" + value == value;
    } else {
      var s := QuoteShellArgument(value) + rest;
      assert s[0] == '\'' && s[1..] == Escape(value) + (['\''] + rest);
      EscapedScans(value, rest, "", words);
      assert "" + value == value;
    }
  }

  lemma LastWord(word: string, words: seq<string>)
    ensures Scan("", InWord, word, words) == Ok(words + [word])
  {}

  lemma NextWord(word: string, rest: string, words: seq<string>)
    ensures Scan(" " + rest, InWord, word, words) == Scan(rest, Between, "", words + [word])
  {
    assert (" " + rest)[0] == ' ' && (" " + rest)[1..] == rest;
  }

  lemma JoinQuoted(args: seq<string>)
    requires args != []
    ensures JoinWith(Quoted(args), " ")
            == QuoteShellArgument(args[0]) + if |args| == 1 then "" else " " + JoinWith(Quoted(args[1..]), " ")
  {
    hide QuoteShellArgument;
    if |args| == 1 {
      assert QuoteShellArgument(args[0]) + "" == QuoteShellArgument(args[0]);
    } else {
      assert Quoted(args) == [QuoteShellArgument(args[0])] + Quoted(args[1..]);
      JoinWithCons(QuoteShellArgument(args[0]), Quoted(args[1..]), " ");
      Regrouped(QuoteShellArgument(args[0]), " ", JoinWith(Quoted(args[1..]), " "));
    }
  }

  lemma {:induction false} JoinedScans(args: seq<string>, words: seq<string>)
    requires args != []
    ensures Scan(JoinWith(Quoted(args), " "), Between, "", words) == Ok(words + args)
    decreases args
  {
    hide QuoteShellArgument, Scan, JoinWith, Quoted;
    JoinQuoted(args);
    if |args| == 1 {
      QuotedScans(args[0], "", words);
      LastWord(args[0], words);
      assert args == [args[0]];
    } else {
      var rest := JoinWith(Quoted(args[1..]), " ");
      QuotedScans(args[0], " " + rest, words);
      NextWord(args[0], rest, words);
      JoinedScans(args[1..], words + [args[0]]);
      assert words + [args[0]] + args[1..] == words + args;
    }
  }

  /** A shell reads a printed command back as exactly the command and its arguments, whatever characters they hold. */
  lemma CommandRoundTrips(command: string, args: seq<string>)
    ensures Tokenize(FormatCopyableCommand(command, args)) == Ok([command] + args)
  {
    JoinedScans([command] + args, []);
    assert [] + ([command] + args) == [command] + args;
  }

  /** Different commands never print alike. */
  lemma PrintingIsInjective(command: string, args: seq<string>, command': string, args': seq<string>)
    requires FormatCopyableCommand(command, args) == FormatCopyableCommand(command', args')
    ensures command == command' && args == args'
  {
    hide FormatCopyableCommand, Tokenize;
    CommandRoundTrips(command, args);
    CommandRoundTrips(command', args');
    var words, words' := [command] + args, [command'] + args';
    assert words == words';
    assert words[0] == command && words[1..] == args && words'[0] == command' && words'[1..] == args';
  }

  /** Letters, digits and nine other characters need no quotes; an argument of these alone is printed as it is. */
  lemma BareExactly(value: string)
    ensures QuoteShellArgument(value) == value <==>
            value != "" && forall i | 0 <= i < |value| ::
              || 'a' <= value[i] <= 'z' || 'A' <= value[i] <= 'Z' || '0' <= value[i] <= '9'
              || value[i] in {'_', '.', '/', ':', '@', '=', '+', '-'}
  {
    QuotedIsLonger(value);
  }

  lemma {:induction false} QuotedIsLonger(value: string)
    ensures |Escape(value)| >= |value|
    decreases value
  {
    if value != "" {
      QuotedIsLonger(value[1..]);
    }
  }
}
