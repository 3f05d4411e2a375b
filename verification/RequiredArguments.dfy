/** Which positional arguments a successful parse was given (common/command_line.h:152-164): all that
    it passed, except those that a `--` directly after another `--` skips. */
module RequiredArguments {
  import opened Options
  import opened CommandLine
  import opened CommandLineResults

  // --- What a command line skips ---

  // The arguments skipped from the first `--` on. A mark ends an appending argument; directly after
  // another mark it skips the next argument.
  function Skips(args: seq<Arg>, index: nat, appending: bool, afterMark: bool, tokens: seq<string>): set<nat>
    decreases |tokens|
  {
    if tokens == [] then {}
    else if tokens[0] == "--" then
      (if afterMark then {index} else {})
      + Skips(args, if appending || afterMark then index + 1 else index, false, true, tokens[1..])
    else if index < |args| then
      Skips(args, if args[index].isAppend then index else index + 1, args[index].isAppend, false, tokens[1..])
    else {}
  }

  // The same from the start of the command line: the first words name subcommands, the others are
  // positional.
  function Skipped(args: seq<Arg>, subcommands: nat, index: nat, appending: bool, tokens: seq<string>): set<nat>
    decreases |tokens|
  {
    if tokens == [] then {}
    else if tokens[0] == "--" then Skips(args, index, appending, false, tokens)
    else if !IsWord(tokens[0]) then Skipped(args, subcommands, index, appending, tokens[1..])
    else if subcommands > 0 then Skipped(args, subcommands - 1, index, appending, tokens[1..])
    else if index < |args| then
      Skipped(args, 0, if args[index].isAppend then index else index + 1, args[index].isAppend, tokens[1..])
    else {}
  }

  predicate DoubleMark(tokens: seq<string>) {
    exists i :: 0 <= i < |tokens| - 1 && tokens[i] == "--" && tokens[i + 1] == "--"
  }

  // --- What the parser passes ---

  // Exactly the arguments passed and not skipped, and one that is still appending, were given.
  ghost predicate Covered(s: State, skipped: set<nat>) {
    && (forall i :: i in skipped ==> i < s.index)
    && (forall i: nat :: Occurs(s.history, PositionalId(i)) <==>
                           (i < s.index && i !in skipped) || (i == s.index && s.appending))
  }

  lemma StartCovered(root: Command)
    ensures Covered(Start(root), {})
  {}

  lemma PositionalCovers(env: Env, s: State, word: string, skipped: set<nat>)
    requires Covered(s, skipped) && Positional(env, s, word).Ok?
    ensures Covered(Positional(env, s, word).state, skipped)
  {
    hide Occurs;
    var e := PositionalEvent(s.index, Active(s).positionals[s.index], word);
    forall i: nat ensures Occurs(s.history + [e], PositionalId(i)) <==> Occurs(s.history, PositionalId(i)) || i == s.index {
      OneMore(env, s.history, e, PositionalId(i));
    }
  }

  lemma MarkCovers(s: State, skipped: set<nat>, afterMark: bool)
    requires Covered(s, skipped) && (afterMark ==> !s.appending)
    ensures Covered(s.(index := if s.appending || afterMark then s.index + 1 else s.index, appending := false),
                    skipped + if afterMark then {s.index} else {})
  {
    hide Occurs;
  }

  lemma {:induction false} SuffixCovers(env: Env, s: State, tokens: seq<string>, afterMark: bool, skipped: set<nat>)
    requires Covered(s, skipped) && (afterMark ==> !s.appending) && PositionalSuffix(env, s, tokens, afterMark).Ok?
    ensures var s' := PositionalSuffix(env, s, tokens, afterMark).state;
            && s'.path == s.path
            && Covered(s', skipped + Skips(Active(s).positionals, s.index, s.appending, afterMark, tokens))
    decreases |tokens|
  {
    hide Covered, MeaningOf;
    if tokens == [] {
      assert skipped + {} == skipped;
    } else if tokens[0] == "--" {
      var s1 := s.(index := if s.appending || afterMark then s.index + 1 else s.index, appending := false);
      var now := if afterMark then {s.index} else {};
      var later := Skips(Active(s).positionals, s1.index, false, true, tokens[1..]);
      MarkCovers(s, skipped, afterMark);
      SuffixCovers(env, s1, tokens[1..], true, skipped + now);
      assert skipped + (now + later) == skipped + now + later;
    } else {
      PositionalCovers(env, s, tokens[0], skipped);
      SuffixCovers(env, Positional(env, s, tokens[0]).state, tokens[1..], false, skipped);
    }
  }

  // --- Up to the first mark ---

  lemma OptionsCover(env: Env, s: State, s': State, skipped: set<nat>, events: seq<Event>)
    requires Covered(s, skipped) && s'.index == s.index && s'.appending == s.appending
    requires s'.history == s.history + events && forall e :: e in events ==> !e.PositionalEvent?
    ensures Covered(s', skipped)
  {
    forall i: nat ensures Occurs(s'.history, PositionalId(i)) <==> Occurs(s.history, PositionalId(i)) {
      assert forall e :: e in s'.history <==> e in s.history || e in events;
    }
  }

  lemma LetterKeepsPlace(env: Env, s: State, c: char, value: Option<string>) returns (e: Event)
    requires Letter(env, s, c, value).Ok?
    ensures var s' := Letter(env, s, c, value).state;
            && s'.history == s.history + [e] && !e.PositionalEvent?
            && s'.index == s.index && s'.appending == s.appending && s'.path == s.path
  {
    e := OptionEvent(|s.path| - 1, ShortTable(env.visit(Active(s)))[c], value, false);
  }

  lemma {:induction false} LettersKeepPlace(env: Env, s: State, letters: string, value: Option<string>)
      returns (events: seq<Event>)
    requires Letters(env, s, letters, value).Ok?
    ensures var s' := Letters(env, s, letters, value).state;
            && s'.history == s.history + events && (forall e :: e in events ==> !e.PositionalEvent?)
            && s'.index == s.index && s'.appending == s.appending && s'.path == s.path
    decreases |letters|
  {
    hide Letter;
    if letters == "" {
      events := [];
    } else {
      var e := LetterKeepsPlace(env, s, letters[0], value);
      var later := LettersKeepPlace(env, Letter(env, s, letters[0], value).state, letters[1..], value);
      events := [e] + later;
    }
  }

  // One token before any mark: an option, a subcommand or a positional word.
  lemma TokenCovers(env: Env, s: State, token: string)
    requires Covered(s, {}) && token != "--" && Token(env, s, token).Ok?
    ensures var s' := Token(env, s, token).state;
            && Covered(s', {})
            && (!IsWord(token) ==> s'.path == s.path && s'.index == s.index && s'.appending == s.appending)
            && (IsWord(token) && Active(s).positionals == [] ==>
                  |s'.path| == |s.path| + 1 && s'.index == s.index && s'.appending == s.appending)
            && (IsWord(token) && Active(s).positionals != [] ==>
                  var args := Active(s).positionals;
                  && s.index < |args| && s'.path == s.path && s'.appending == args[s.index].isAppend
                  && s'.index == if args[s.index].isAppend then s.index else s.index + 1)
  {
    hide Covered, FinalizeOptions;
    var s' := Token(env, s, token).state;
    if StartsWith(token, "--") {
      LongNeedsDash(token);
      OptionsCover(env, s, s', {}, [s'.history[|s.history|]]);
    } else if StartsWith(token, "-") && |token| > 1 {
      var split := SplitValue(token[1..]);
      var events := LettersKeepPlace(env, s, split.name, split.value);
      OptionsCover(env, s, s', {}, events);
    } else if Active(s).positionals != [] {
      PositionalCovers(env, s, token, {});
    } else {
      FinalizeAddsNothing(s);
      OptionsCover(env, s, s', {}, [SubcommandEvent(token)]);
    }
  }

  // Once a command takes positional arguments it stays the active one.
  lemma {:induction false} PathGrows(env: Env, s: State, tokens: seq<string>)
    requires Covered(s, {}) && Tokens(env, s, tokens).Ok?
    ensures var s' := Tokens(env, s, tokens).state;
            |s'.path| >= |s.path| && (Active(s).positionals != [] ==> s'.path == s.path)
    decreases |tokens|
  {
    hide Covered, Token, Skips;
    if tokens == [] {
    } else if tokens[0] == "--" {
      SuffixCovers(env, s, tokens, false, {});
    } else {
      TokenCovers(env, s, tokens[0]);
      PathGrows(env, Token(env, s, tokens[0]).state, tokens[1..]);
    }
  }

  lemma {:induction false} TokensCover(env: Env, s: State, tokens: seq<string>)
    requires Covered(s, {}) && Tokens(env, s, tokens).Ok?
    ensures var s' := Tokens(env, s, tokens).state;
            && |s'.path| >= |s.path|
            && Covered(s', Skipped(Active(s').positionals, |s'.path| - |s.path|, s.index, s.appending, tokens))
    decreases |tokens|
  {
    hide Covered, Token, Skips;
    PathGrows(env, s, tokens);
    if tokens == [] {
    } else if tokens[0] == "--" {
      SuffixCovers(env, s, tokens, false, {});
      assert {} + Skips(Active(s).positionals, s.index, s.appending, false, tokens)
          == Skips(Active(s).positionals, s.index, s.appending, false, tokens);
    } else {
      var a := Token(env, s, tokens[0]).state;
      TokenCovers(env, s, tokens[0]);
      PathGrows(env, a, tokens[1..]);
      TokensCover(env, a, tokens[1..]);
    }
  }

  // --- What a success was given ---

  // After a success, of the arguments passed exactly those not skipped were given; so all required
  // ones were given if and only if no required one is skipped.
  lemma RequiredGivenIff(env: Env, root: Command, tokens: seq<string>)
    requires WalksOptions(env) && Built(root) && Configured(root) && Parse(env, root, tokens).Success?
    ensures var s := Parse(env, root, tokens).state; var args := Active(s).positionals;
            var skipped := Skipped(args, |s.path| - 1, 0, false, tokens);
            && (forall i: nat :: Occurs(s.history, PositionalId(i)) <==> i < s.index && i !in skipped)
            && (forall i :: i in skipped ==> i < s.index <= |args|)
            && (forall i :: 0 <= i < |args| && args[i].isRequired ==> i < s.index)
            && ((forall i :: 0 <= i < |args| && args[i].isRequired ==> Occurs(s.history, PositionalId(i))) <==>
                (forall i :: i in skipped ==> !args[i].isRequired))
  {
    hide Tokens, Spelled, Words, Inv, Occurs, FinalizeOptions, Skipped;
    ParseReads(env, root, tokens);
    var s := Tokens(env, Start(root), tokens).state;
    FinalizeAddsNothing(s);
    ActiveIsBuilt(env, s);
    IndexFits(env, s);
    StartCovered(root);
    TokensCover(env, Start(root), tokens);
  }

  lemma ActiveIsBuilt(env: Env, s: State)
    requires Inv(env, s, |s.path| - 1)
    ensures RequiredFirst(Active(s).positionals)
  {
    assert Active(s) in s.path && Built(Active(s));
  }

  lemma {:induction false} SkipsNeedDoubleMark(env: Env, s: State, tokens: seq<string>, afterMark: bool)
    requires PositionalSuffix(env, s, tokens, afterMark).Ok?
    ensures Skips(Active(s).positionals, s.index, s.appending, afterMark, tokens) == {} <==>
              !DoubleMark(tokens) && !(afterMark && tokens != [] && tokens[0] == "--")
    decreases |tokens|
  {
    if tokens == [] {
    } else {
      DoubleMarkStep(tokens);
      if tokens[0] == "--" {
        var s1 := s.(index := if s.appending || afterMark then s.index + 1 else s.index, appending := false);
        SkipsNeedDoubleMark(env, s1, tokens[1..], true);
      } else {
        SkipsNeedDoubleMark(env, Positional(env, s, tokens[0]).state, tokens[1..], false);
      }
    }
  }

  lemma DoubleMarkStep(tokens: seq<string>)
    requires tokens != []
    ensures DoubleMark(tokens) <==> DoubleMark(tokens[1..]) || (|tokens| > 1 && tokens[0] == "--" && tokens[1] == "--")
  {
    if DoubleMark(tokens[1..]) {
      var i :| 0 <= i < |tokens| - 2 && tokens[1..][i] == "--" && tokens[1..][i + 1] == "--";
      assert tokens[i + 1] == "--" && tokens[i + 2] == "--";
    }
    if DoubleMark(tokens) {
      var i :| 0 <= i < |tokens| - 1 && tokens[i] == "--" && tokens[i + 1] == "--";
      if i > 0 { assert tokens[1..][i - 1] == "--" && tokens[1..][i] == "--"; }
    }
  }

  lemma {:induction false} SkippedNeedsDoubleMark(env: Env, s: State, tokens: seq<string>)
    requires Covered(s, {}) && Tokens(env, s, tokens).Ok?
    ensures var s' := Tokens(env, s, tokens).state;
            && |s'.path| >= |s.path|
            && (Skipped(Active(s').positionals, |s'.path| - |s.path|, s.index, s.appending, tokens) == {} <==>
                !DoubleMark(tokens))
    decreases |tokens|
  {
    hide Covered, Token, Skips, DoubleMark;
    PathGrows(env, s, tokens);
    if tokens == [] {
      NoTokensNoMark();
    } else if tokens[0] == "--" {
      SuffixCovers(env, s, tokens, false, {});
      SkipsNeedDoubleMark(env, s, tokens, false);
    } else {
      var a := Token(env, s, tokens[0]).state;
      DoubleMarkStep(tokens);
      TokenCovers(env, s, tokens[0]);
      PathGrows(env, a, tokens[1..]);
      SkippedNeedsDoubleMark(env, a, tokens[1..]);
    }
  }

  lemma NoTokensNoMark()
    ensures !DoubleMark([])
  {}

  // What a caller can see on the command line: an argument is skipped exactly when a `--` directly
  // follows another. Without that, also with other marks, every required argument was given.
  lemma RequiredGivenWithoutDoubleMark(env: Env, root: Command, tokens: seq<string>)
    requires WalksOptions(env) && Built(root) && Configured(root) && Parse(env, root, tokens).Success?
    ensures var s := Parse(env, root, tokens).state; var args := Active(s).positionals;
            && (DoubleMark(tokens) <==> exists i: nat :: i < s.index && !Occurs(s.history, PositionalId(i)))
            && (!DoubleMark(tokens) ==>
                  forall i :: 0 <= i < |args| && args[i].isRequired ==> Occurs(s.history, PositionalId(i)))
  {
    hide Tokens, Spelled, Words, Inv, Occurs, FinalizeOptions, Skipped, DoubleMark;
    RequiredGivenIff(env, root, tokens);
    var s := Tokens(env, Start(root), tokens).state;
    StartCovered(root);
    SkippedNeedsDoubleMark(env, Start(root), tokens);
    var skipped := Skipped(Active(s).positionals, |s.path| - 1, 0, false, tokens);
    FinalizeAddsNothing(s);
    var done := Parse(env, root, tokens).state;
    assert done.path == s.path && done.history == s.history;
    if skipped != {} {
      var i: nat :| i in skipped;
      assert i < done.index && !Occurs(done.history, PositionalId(i));
    }
  }

  // A command line that skips a required argument on purpose.
  lemma RequiredCanBeSkipped(env: Env)
    ensures var a := Arg("from", "", String, None, true, false, false);
            var b := Arg("to", "", String, None, false, false, false);
            var root := Command("copy", [], [a, b], [], Action);
            var outcome := Parse(env, root, ["--", "--", "x"]);
            && outcome.Success? && outcome.state.stored == map[PositionalId(1) := [Str("x")]]
            && Built(root) && Configured(root) && Skipped([a, b], 0, 0, false, ["--", "--", "x"]) == {0}
  {
    var a := Arg("from", "", String, None, true, false, false);
    var b := Arg("to", "", String, None, false, false, false);
    var root := Command("copy", [], [a, b], [], Action);
    hide PositionalSuffix, Skipped;
    FirstIsSkipped(env, root, a, b);
    OnlyFirstIsSkipped(a, b);
    assert Missing(root, {}) == {} && Defaults(root, 0, {}) == map[];
  }

  lemma OnlyFirstIsSkipped(a: Arg, b: Arg)
    requires !a.isAppend && !b.isAppend
    ensures Skipped([a, b], 0, 0, false, ["--", "--", "x"]) == {0}
  {
    assert ["--", "--", "x"][1..] == ["--", "x"] && ["--", "x"][1..] == ["x"];
  }

  // The suffix stores its only word in the second of two arguments.
  lemma FirstIsSkipped(env: Env, root: Command, a: Arg, b: Arg)
    requires root.positionals == [a, b] && !a.isAppend && !b.isAppend && b.kind == String && !b.hasMeta
    ensures var s := Start(root);
            PositionalSuffix(env, s, ["--", "--", "x"], false) ==
              Occur(env, s.(index := 2), PositionalEvent(1, b, "x"))
            && PositionalSuffix(env, s, ["--", "--", "x"], false).Ok?
  {
    var s := Start(root);
    var s2 := s.(index := 1);
    assert ["--", "--", "x"][1..] == ["--", "x"] && ["--", "x"][1..] == ["x"] && ["x"][1..] == [];
    var e := PositionalEvent(1, b, "x");
    assert Positional(env, s2, "x") == Occur(env, s2.(index := 2), e);
    var s3 := Occur(env, s2.(index := 2), e).state;
    assert PositionalSuffix(env, s3, [], false) == Ok(s3);
    assert PositionalSuffix(env, s2, ["x"], true) == Ok(s3);
    assert PositionalSuffix(env, s, ["--", "x"], true) == Ok(s3);
  }
}
