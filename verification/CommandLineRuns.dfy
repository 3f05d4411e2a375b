/** Spellings that mean the same (common/command_line.h:112-130), and which names an option may have. */
module CommandLineRuns {
  import opened Options
  import opened CommandLine

  // --- Names ---

  // A long name as the documentation describes it (common/command_line.h:93-95).
  predicate DocumentedName(name: string) {
    && name != ""
    && (forall c :: c in name ==> c == '-' || IsAlnum(c))
    && !StartsWith(name, "-") && !StartsWith(name, "no-")
  }

  // The builder accepts the documented names of more than one character that do not end in a dash,
  // and besides them names with underscores.
  lemma AcceptedNames(name: string)
    ensures DocumentedName(name) && |name| > 1 && IsAlnum(name[|name| - 1]) <==> IsValidName(name) && '_' !in name
  {
    if IsValidName(name) && '_' !in name { AcceptedIsDocumented(name); }
    if DocumentedName(name) && |name| > 1 && IsAlnum(name[|name| - 1]) { DocumentedIsAccepted(name); }
  }

  lemma AcceptedIsDocumented(name: string)
    requires IsValidName(name) && '_' !in name
    ensures DocumentedName(name)
  {
    forall c | c in name ensures c == '-' || IsAlnum(c) {
      var i :| 0 <= i < |name| && name[i] == c;
      assert i == 0 || i == |name| - 1 || 1 <= i < |name| - 1;
    }
    assert name[0] != '-';
  }

  lemma DocumentedIsAccepted(name: string)
    requires DocumentedName(name) && |name| > 1 && IsAlnum(name[|name| - 1])
    ensures IsValidName(name) && '_' !in name
  {
    assert forall i :: 0 <= i < |name| ==> name[i] in name;
    assert name[0] in name && name[..1] == [name[0]];
  }

  lemma AcceptedNameExamples()
    ensures IsValidName("a_b") && !DocumentedName("a_b")
    ensures DocumentedName("x") && !IsValidName("x")
  {
    assert '_' in "a_b";
  }

  // --- Spellings that mean the same ---

  lemma SplitsAtFirst(name: string, rest: string)
    requires '=' !in name
    ensures SplitValue(name + "=" + rest) == Split(name, Some(rest))
    ensures SplitValue(name) == Split(name, None)
  {
    var s := name + "=" + rest;
    var i := IndexOf(s, '=');
    assert s[|name|] == '=';
    assert forall k :: 0 <= k < |name| ==> s[k] == name[k] != '=';
    assert forall k :: 0 <= k < i ==> s[..i][k] != '=';
    assert s[..|name|] == name && s[|name| + 1..] == rest;
  }

  lemma NamesHaveNoEquals(name: string)
    requires IsValidName(name)
    ensures '=' !in name && '-' != name[0]
  {}

  // How a long option is taken apart, for a name the builder accepted.
  lemma LongSpelling(env: Env, s: State, arg: Arg, value: string)
    requires arg.name in NamesOf(Active(s).options) && FindArg(Active(s).options, arg.name) == Some(arg)
    requires IsValidName(arg.name)
    ensures LongOption(env, s, "--" + arg.name) == MarkAndOccur(env, s, arg, None, false)
    ensures LongOption(env, s, "--" + arg.name + "=" + value) == MarkAndOccur(env, s, arg, Some(value), false)
    ensures LongOption(env, s, "--no-" + arg.name) == MarkAndOccur(env, s, arg, None, true)
  {
    hide MarkAndOccur, SplitValue, IsValidName, FindArg, NamesOf;
    NamesHaveNoEquals(arg.name);
    SplitsAtFirst(arg.name, value);
    NotNegated(arg.name, value);
    assert ("--" + arg.name)[2..] == arg.name;
    assert ("--" + arg.name + "=" + value)[2..] == arg.name + "=" + value;
    assert ("--no-" + arg.name)[2..] == "no-" + arg.name;
    assert ("no-" + arg.name)[3..] == arg.name;
    assert "no-" <= "no-" + arg.name;
  }

  lemma NotNegated(name: string, value: string)
    requires IsValidName(name)
    ensures !StartsWith(name, "no-") && !StartsWith(name + "=" + value, "no-") && |name| > 0
  {
    var s := name + "=" + value;
    if |name| > 2 {
      assert name[..3] == s[..3] && !("no-" <= name);
    } else {
      assert s[2] == '=';
    }
  }

  // Two steps that differ at most in how the last argument was spelled.
  predicate SameButSpelling(a: Step, b: Step) {
    match (a, b)
    case (Ok(s), Ok(s')) => s.(history := []) == s'.(history := [])
    case (Fail(e), Fail(e')) => e == e'
    case _ => false
  }

  predicate SameOutcome(a: Outcome, b: Outcome) {
    match (a, b)
    case (Success(s), Success(s')) => s.(history := []) == s'.(history := [])
    case (MetaSuccess(s), MetaSuccess(s')) => s.(history := []) == s'.(history := [])
    case (Failure(e), Failure(e')) => e == e'
    case _ => false
  }

  lemma FinalizeIgnoresHistory(s: State, s': State)
    requires s.(history := []) == s'.(history := [])
    ensures SameButSpelling(FinalizeOptions(s), FinalizeOptions(s'))
  {}

  lemma {:induction false} LettersIgnoreHistory(env: Env, s: State, s': State, letters: string, value: Option<string>)
    requires s.(history := []) == s'.(history := [])
    ensures SameButSpelling(Letters(env, s, letters, value), Letters(env, s', letters, value))
    decreases |letters|
  {
    if letters == "" {
    } else {
      var a, b := Letter(env, s, letters[0], value), Letter(env, s', letters[0], value);
      if a.Ok? { LettersIgnoreHistory(env, a.state, b.state, letters[1..], value); }
    }
  }

  lemma TokenIgnoresHistory(env: Env, s: State, s': State, token: string)
    requires s.(history := []) == s'.(history := []) && token != "--"
    ensures SameButSpelling(Token(env, s, token), Token(env, s', token))
  {
    hide Letters, FinalizeOptions, SplitValue, MeaningOf;
    if StartsWith(token, "--") {
    } else if StartsWith(token, "-") && |token| > 1 {
      var split := SplitValue(token[1..]);
      LettersIgnoreHistory(env, s, s', split.name, split.value);
    } else if Active(s).positionals == [] {
      FinalizeIgnoresHistory(s, s');
    }
  }

  lemma {:induction false} SuffixIgnoresHistory(env: Env, s: State, s': State, tokens: seq<string>, empty: bool)
    requires s.(history := []) == s'.(history := [])
    ensures SameButSpelling(PositionalSuffix(env, s, tokens, empty), PositionalSuffix(env, s', tokens, empty))
    decreases |tokens|
  {
    hide MeaningOf;
    if tokens == [] {
    } else if tokens[0] != "--" {
      var a, b := Positional(env, s, tokens[0]), Positional(env, s', tokens[0]);
      if a.Ok? { SuffixIgnoresHistory(env, a.state, b.state, tokens[1..], false); }
    } else {
      var index := if s.appending || empty then s.index + 1 else s.index;
      SuffixIgnoresHistory(env, s.(index := index, appending := false), s'.(index := index, appending := false),
                           tokens[1..], true);
    }
  }

  lemma {:induction false} TokensIgnoreHistory(env: Env, s: State, s': State, tokens: seq<string>)
    requires s.(history := []) == s'.(history := [])
    ensures SameButSpelling(Tokens(env, s, tokens), Tokens(env, s', tokens))
    decreases |tokens|
  {
    if tokens == [] {
    } else if tokens[0] == "--" {
      SuffixIgnoresHistory(env, s, s', tokens, false);
    } else {
      TokenIgnoresHistory(env, s, s', tokens[0]);
      var a, b := Token(env, s, tokens[0]), Token(env, s', tokens[0]);
      if a.Ok? { TokensIgnoreHistory(env, a.state, b.state, tokens[1..]); }
    }
  }

  // Parsing takes the tokens one after the other until a `--`.
  lemma {:induction false} TokensInTwoParts(env: Env, s: State, before: seq<string>, after: seq<string>)
    requires "--" !in before
    ensures Tokens(env, s, before + after) ==
              match Tokens(env, s, before)
              case Fail(e) => Fail(e)
              case Ok(s') => Tokens(env, s', after)
    decreases |before|
  {
    hide Token;
    if before == [] {
      assert before + after == after;
    } else {
      assert (before + after)[1..] == before[1..] + after;
      var a := Token(env, s, before[0]);
      if a.Ok? { TokensInTwoParts(env, a.state, before[1..], after); }
    }
  }

  function StateAfter(env: Env, root: Command, tokens: seq<string>): Option<State> {
    match Tokens(env, Start(root), tokens)
    case Fail(_) => None
    case Ok(s) => Some(s)
  }

  // Replacing some tokens by others that take the same steps does not change the outcome.
  lemma SameWherever(env: Env, root: Command, before: seq<string>, x: seq<string>, y: seq<string>, after: seq<string>)
    requires "--" !in before && "--" !in x && "--" !in y
    requires forall s :: StateAfter(env, root, before) == Some(s) ==> SameButSpelling(Tokens(env, s, x), Tokens(env, s, y))
    ensures SameOutcome(Parse(env, root, before + x + after), Parse(env, root, before + y + after))
  {
    hide Tokens, SameOutcome, Finish;
    assert before + x + after == before + (x + after) && before + y + after == before + (y + after);
    TokensInTwoParts(env, Start(root), before, x + after);
    TokensInTwoParts(env, Start(root), before, y + after);
    var b := Tokens(env, Start(root), before);
    if b.Ok? {
      assert StateAfter(env, root, before) == Some(b.state);
      TokensInTwoParts(env, b.state, x, after);
      TokensInTwoParts(env, b.state, y, after);
      var a, a' := Tokens(env, b.state, x), Tokens(env, b.state, y);
      if a.Ok? {
        TokensIgnoreHistory(env, a.state, a'.state, after);
        var f, f' := Tokens(env, a.state, after), Tokens(env, a'.state, after);
        SameFinish(f, f');
      } else {
        SameFinish(a, a');
      }
    } else {
      SameFinish(b, b);
    }
  }

  // How a parse ends after its last token, or at its first error.
  function End(step: Step): Outcome {
    match step
    case Fail(e) => Failure(e)
    case Ok(s) => Finish(s)
  }

  lemma SameFinish(a: Step, b: Step)
    requires SameButSpelling(a, b)
    ensures SameOutcome(End(a), End(b))
  {
    if a.Ok? { FinalizeIgnoresHistory(a.state, b.state); }
  }

  lemma OneToken(env: Env, s: State, token: string)
    requires token != "--"
    ensures Tokens(env, s, [token]) == Token(env, s, token)
  {}

  lemma LongToken(env: Env, s: State, rest: string)
    requires rest != ""
    ensures Tokens(env, s, ["--" + rest]) == LongOption(env, s, "--" + rest) && "--" !in ["--" + rest]
  {}

  lemma FoundIsNamed(args: seq<Arg>, arg: Arg)
    ensures FindArg(args, arg.name) == Some(arg) ==> arg.name in NamesOf(args)
  {}

  lemma FalseEitherWay(env: Env, s: State, flag: Arg)
    requires flag.kind == Flag
    ensures SameButSpelling(MarkAndOccur(env, s, flag, None, true), MarkAndOccur(env, s, flag, Some("false"), false))
  {}

  // Wherever a flag is in scope, `--no-x` and `--x=false` give the same outcome and the same values.
  lemma NegatedIsFalse(env: Env, root: Command, before: seq<string>, flag: Arg, after: seq<string>)
    requires "--" !in before && flag.kind == Flag && IsValidName(flag.name)
    requires forall s :: StateAfter(env, root, before) == Some(s) ==> FindArg(Active(s).options, flag.name) == Some(flag)
    ensures SameOutcome(Parse(env, root, before + ["--no-" + flag.name] + after),
                        Parse(env, root, before + ["--" + flag.name + "=" + "false"] + after))
  {
    var x, y := "--no-" + flag.name, "--" + flag.name + "=" + "false";
    hide Tokens, Token, LongOption, MarkAndOccur, FindArg, IsValidName, StateAfter, SameButSpelling;
    forall s | StateAfter(env, root, before) == Some(s)
      ensures SameButSpelling(Tokens(env, s, [x]), Tokens(env, s, [y]))
    {
      FoundIsNamed(Active(s).options, flag);
      LongSpelling(env, s, flag, "false");
      assert x == "--" + ("no-" + flag.name) && y == "--" + (flag.name + "=" + "false");
      LongToken(env, s, "no-" + flag.name);
      LongToken(env, s, flag.name + "=" + "false");
      FalseEitherWay(env, s, flag);
    }
    SameWherever(env, root, before, [x], [y], after);
  }

  // A short option with or without a value is its long option.
  lemma ShortIsLong(env: Env, root: Command, before: seq<string>, c: char, arg: Arg, value: string, after: seq<string>)
    requires "--" !in before && IsValidName(arg.name) && c != '-' && c != '=' && c as int < 128
    requires forall s :: StateAfter(env, root, before) == Some(s) ==>
               FindArg(Active(s).options, arg.name) == Some(arg) &&
               c in ShortTable(env.visit(Active(s))) && ShortTable(env.visit(Active(s)))[c] == arg
    ensures SameOutcome(Parse(env, root, before + [['-', c]] + after), Parse(env, root, before + ["--" + arg.name] + after))
    ensures SameOutcome(Parse(env, root, before + [['-', c] + "=" + value] + after),
                        Parse(env, root, before + ["--" + arg.name + "=" + value] + after))
  {
    var x, y := ['-', c], "--" + arg.name;
    var x', y' := ['-', c] + "=" + value, "--" + arg.name + "=" + value;
    hide Tokens, Token, LongOption, MarkAndOccur, FindArg, IsValidName, StateAfter, ShortTable;
    forall s | StateAfter(env, root, before) == Some(s)
      ensures SameButSpelling(Tokens(env, s, [x]), Tokens(env, s, [y]))
      ensures SameButSpelling(Tokens(env, s, [x']), Tokens(env, s, [y']))
    {
      FoundIsNamed(Active(s).options, arg);
      LongSpelling(env, s, arg, value);
      ShortSpelling(env, s, c, arg, value);
      OneToken(env, s, x);
      NotNegated(arg.name, value);
      LongToken(env, s, arg.name);
      OneToken(env, s, x');
      assert y' == "--" + (arg.name + "=" + value);
      LongToken(env, s, arg.name + "=" + value);
    }
    NotNegated(arg.name, value);
    assert y[2] == arg.name[0] && y'[2] == arg.name[0] && x'[1] == c;
    SameWherever(env, root, before, [x], [y], after);
    SameWherever(env, root, before, [x'], [y'], after);
  }

  lemma NotLong(token: string)
    requires |token| > 1 && token[1] != '-'
    ensures !StartsWith(token, "--")
  {}

  lemma ShortSpelling(env: Env, s: State, c: char, arg: Arg, value: string)
    requires c != '-' && c != '=' && c as int < 128
    requires c in ShortTable(env.visit(Active(s))) && ShortTable(env.visit(Active(s)))[c] == arg
    ensures Token(env, s, ['-', c]) == MarkAndOccur(env, s, arg, None, false)
    ensures Token(env, s, ['-', c] + "=" + value) == MarkAndOccur(env, s, arg, Some(value), false)
  {
    hide MarkAndOccur, SplitValue, ShortTable;
    SplitsAtFirst([c], value);
    assert ['-', c][1..] == [c] && (['-', c] + "=" + value)[1..] == [c] + "=" + value;
    assert [c][1..] == "";
    NotLong(['-', c]);
    NotLong(['-', c] + "=" + value);
    assert StartsWith(['-', c], "-") && StartsWith(['-', c] + "=" + value, "-");
    forall v: Option<string> ensures Letters(env, s, [c], v) == MarkAndOccur(env, s, arg, v, false) {
      assert Letter(env, s, c, v) == MarkAndOccur(env, s, arg, v, false);
    }
  }

  function Singles(letters: string): (r: seq<string>)
    ensures |r| == |letters| && forall i :: 0 <= i < |r| ==> r[i] == ['-', letters[i]]
  {
    seq(|letters|, i requires 0 <= i < |letters| => ['-', letters[i]])
  }

  lemma {:induction false} LettersOneByOne(env: Env, s: State, letters: string)
    requires '-' !in letters && '=' !in letters
    ensures Tokens(env, s, Singles(letters)) == Letters(env, s, letters, None)
    decreases |letters|
  {
    hide Letter, Token;
    if letters == "" {
      assert Singles(letters) == [];
    } else {
      var c := letters[0];
      assert Singles(letters)[1..] == Singles(letters[1..]);
      assert c in letters;
      assert Singles(letters)[0] == ['-', c] != "--";
      SingleLetter(env, s, c);
      var a := Letter(env, s, c, None);
      if a.Ok? { LettersOneByOne(env, a.state, letters[1..]); }
    }
  }

  lemma SingleLetter(env: Env, s: State, c: char)
    requires c != '-' && c != '='
    ensures Token(env, s, ['-', c]) == Letter(env, s, c, None)
  {
    hide Letter, SplitValue;
    SplitsAtFirst([c], "");
    var token := ['-', c];
    assert token[1..] == [c] && [c][1..] == "";
    NotLong(token);
    assert token[..1] == "-";
    assert ShortGroup(env, s, token) == Letters(env, s, [c], None);
    var a := Letter(env, s, c, None);
    if a.Ok? { assert Letters(env, a.state, "", None) == a; }
  }

  // A group `-xyz` is the options `-x`, `-y`, `-z` one after the other.
  lemma GroupIsItsLetters(env: Env, root: Command, before: seq<string>, letters: string, after: seq<string>)
    requires "--" !in before && letters != "" && '-' !in letters && '=' !in letters
    ensures SameOutcome(Parse(env, root, before + ["-" + letters] + after), Parse(env, root, before + Singles(letters) + after))
  {
    var token := "-" + letters;
    assert token[1..] == letters && letters[0] in letters;
    assert token[1] == letters[0];
    NotLong(token);
    assert token != "--" && StartsWith(token, "-");
    SplitsAtFirst(letters, "");
    forall s | StateAfter(env, root, before) == Some(s)
      ensures SameButSpelling(Tokens(env, s, [token]), Tokens(env, s, Singles(letters)))
    {
      OneToken(env, s, token);
      LettersOneByOne(env, s, letters);
    }
    forall t | t in Singles(letters) ensures t != "--" {
      var i :| 0 <= i < |letters| && t == Singles(letters)[i];
      assert letters[i] in letters;
    }
    SameWherever(env, root, before, [token], Singles(letters), after);
  }
}
