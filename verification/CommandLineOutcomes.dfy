/** What a command line means and when it is refused (common/command_line.cpp:864-1315), said of its
    tokens alone: what an argument holds, which token is refused with which error, and which outcome
    a parse has. */
module CommandLineOutcomes {
  import opened Options
  import opened CommandLine
  import opened CommandLineResults
  import opened CommandLineRuns

  // --- One occurrence of an argument ---

  // The value that an occurrence gives to an argument.
  ghost predicate Denotes(env: Env, arg: Arg, text: Option<string>, negated: bool, v: Value) {
    if arg.kind != Flag && text == None then !negated && arg.kind != MetaActionOnly && arg.default == Some(v)
    else
      match v
      case Bool(b) =>
        arg.kind == Flag && if b then !negated && (text == None || text == Some("true"))
                            else (negated && text == None) || (!negated && text == Some("false"))
      case Int(n) => arg.kind == Integer && !negated && env.integer(text.value) == Some(n)
      case Str(s) => arg.kind == String && !negated && text == Some(s)
      case Chosen(i) =>
        && arg.kind.OneOf? && !negated && i < |arg.kind.values|
        && text == Some(arg.kind.values[i]) && text.value !in arg.kind.values[..i]
  }

  // The error with which an occurrence is refused.
  ghost predicate Refused(env: Env, arg: Arg, text: Option<string>, negated: bool, e: Error) {
    match e
    case NegatedNonFlag(n) => n == arg.name && negated && arg.kind != Flag
    case NegatedWithValue(n) => n == arg.name && negated && arg.kind == Flag && text.Some?
    case InvalidFlagValue(n, v) =>
      n == arg.name && !negated && arg.kind == Flag && text == Some(v) && v != "true" && v != "false"
    case ValueRequired(n) =>
      n == arg.name && !negated && arg.kind != Flag && arg.kind != MetaActionOnly && text == None && arg.default == None
    case InvalidInteger(n, v) =>
      n == arg.name && !negated && arg.kind == Integer && text == Some(v) && env.integer(v) == None
    case InvalidOneOf(n, v) =>
      n == arg.name && !negated && arg.kind.OneOf? && text == Some(v) && v !in arg.kind.values
    case ValueRefused(n) => n == arg.name && !negated && arg.kind == MetaActionOnly && text.Some?
    case _ => false
  }

  // Every occurrence gives one value or is refused with one error; only a bare meta action gives none.
  lemma OccurrenceMeans(env: Env, arg: Arg, text: Option<string>, negated: bool)
    ensures forall v :: Interpret(env, arg, text, negated) == Means(Some(v)) <==> Denotes(env, arg, text, negated, v)
    ensures forall e :: Interpret(env, arg, text, negated) == Wrong(e) <==> Refused(env, arg, text, negated, e)
    ensures Interpret(env, arg, text, negated) == Means(None) <==>
              arg.kind == MetaActionOnly && !negated && text == None
  {
    if !negated && arg.kind.OneOf? && text.Some? {
      forall i: nat | Denotes(env, arg, text, negated, Chosen(i))
        ensures IndexIn(arg.kind.values, text.value) == Some(i)
      {
        FirstIndex(arg.kind.values, text.value, i);
      }
    }
  }

  lemma FirstIndex(values: seq<string>, s: string, i: nat)
    requires i < |values| && values[i] == s && s !in values[..i]
    ensures IndexIn(values, s) == Some(i)
  {
    assert IndexIn(values, s).Some?;
  }

  // --- Reading the tokens ---

  predicate AfterMark(tokens: seq<string>) {
    tokens != [] && tokens[|tokens| - 1] == "--"
  }

  // The commands that the tokens select.
  function PathOf(root: Command, tokens: seq<string>): Path
    decreases |tokens|
  {
    if tokens == [] then [root]
    else
      var path := PathOf(root, tokens[..|tokens| - 1]);
      if "--" in tokens then path
      else
        match Selected(path[|path| - 1], tokens[|tokens| - 1])
        case None => path
        case Some(sub) => path + [sub]
  }

  function ActiveAt(root: Command, tokens: seq<string>): Command {
    var path := PathOf(root, tokens);
    path[|path| - 1]
  }

  // A token that is given to a positional argument.
  predicate TakesWord(root: Command, before: seq<string>, token: string) {
    token != "--" && ("--" in before || (IsWord(token) && ActiveAt(root, before).positionals != []))
  }

  // The next positional argument, and whether it has taken words and may take more.
  datatype Place = Place(index: nat, appending: bool)

  function PlaceOf(root: Command, tokens: seq<string>): Place
    decreases |tokens|
  {
    if tokens == [] then Place(0, false)
    else
      var before, token := tokens[..|tokens| - 1], tokens[|tokens| - 1];
      var p, args := PlaceOf(root, before), ActiveAt(root, before).positionals;
      if token == "--" then Place(if p.appending || AfterMark(before) then p.index + 1 else p.index, false)
      else if TakesWord(root, before, token) && p.index < |args| then
        (if args[p.index].isAppend then Place(p.index, true) else Place(p.index + 1, false))
      else p
  }

  // What a token stands for after the tokens before it.
  function ReadAt(env: Env, root: Command, before: seq<string>, token: string): seq<Event> {
    var path, p := PathOf(root, before), PlaceOf(root, before);
    var c := path[|path| - 1];
    if token == "--" then []
    else if TakesWord(root, before, token) then
      (if p.index < |c.positionals| then [PositionalEvent(p.index, c.positionals[p.index], token)] else [])
    else if IsWord(token) then (if Selected(c, token).Some? then [SubcommandEvent(token)] else [])
    else SpelledBy(env, c, |path| - 1, token)
  }

  function Reading(env: Env, root: Command, tokens: seq<string>): seq<Event>
    decreases |tokens|
  {
    if tokens == [] then []
    else
      var before := tokens[..|tokens| - 1];
      Reading(env, root, before) + ReadAt(env, root, before, tokens[|tokens| - 1])
  }

  // The last argument with a meta action.
  function LastMeta(h: seq<Event>): (r: Option<ArgId>)
    ensures r == None <==> forall e :: e in h ==> e.SubcommandEvent? || !e.arg.hasMeta
    ensures r.Some? ==> exists i :: 0 <= i < |h| && IdOf(h[i]) == r && h[i].arg.hasMeta
                          && forall j :: i < j < |h| ==> h[j].SubcommandEvent? || !h[j].arg.hasMeta
  {
    if h == [] then None
    else
      var e := h[|h| - 1];
      if !e.SubcommandEvent? && e.arg.hasMeta then assert h[|h| - 1] == e; IdOf(e)
      else
        assert h == h[..|h| - 1] + [e];
        LastMeta(h[..|h| - 1])
  }

  // The required options of the active command that were not spelled for it.
  function MissingAt(env: Env, root: Command, tokens: seq<string>): set<string> {
    var path := PathOf(root, tokens);
    set o | o in path[|path| - 1].options && o.isRequired
            && !Occurs(Reading(env, root, tokens), OptionId(|path| - 1, o.name)) :: o.name
  }

  // --- When a token is refused ---

  datatype Spelling = Spelling(name: string, negated: bool, text: Option<string>)

  predicate IsLong(token: string) {
    StartsWith(token, "--") && |token| > 2
  }

  predicate IsGroup(token: string) {
    StartsWith(token, "-") && |token| > 1 && !StartsWith(token, "--")
  }

  // The name and the value of a long option.
  function LongParts(token: string): Spelling
    requires IsLong(token)
  {
    var rest := token[2..];
    var negated := StartsWith(rest, "no-");
    var split := SplitValue(if negated then rest[3..] else rest);
    Spelling(split.name, negated, split.value)
  }

  // A letter of a group is refused: no option has it, or its option refuses the value.
  ghost predicate LetterDue(env: Env, c: Command, letter: char, text: Option<string>, e: Error) {
    var table := ShortTable(env.visit(c));
    if letter as int < 128 && letter in table then Refused(env, table[letter], text, false, e)
    else e == UnknownShortOption(letter)
  }

  ghost predicate LetterFine(env: Env, c: Command, letter: char, text: Option<string>) {
    forall e :: !LetterDue(env, c, letter, text, e)
  }

  ghost predicate GroupDue(env: Env, c: Command, letters: string, text: Option<string>, e: Error) {
    exists j :: 0 <= j < |letters| && LetterDue(env, c, letters[j], text, e)
                && forall i :: 0 <= i < j ==> LetterFine(env, c, letters[i], text)
  }

  ghost predicate ValueDue(env: Env, root: Command, before: seq<string>, token: string, e: Error) {
    var c, p := ActiveAt(root, before), PlaceOf(root, before);
    if TakesWord(root, before, token) then
      p.index < |c.positionals| && Refused(env, c.positionals[p.index], Some(token), false, e)
    else if "--" in before || token == "--" then false
    else if IsLong(token) then
      var s := LongParts(token);
      FindArg(c.options, s.name).Some? && Refused(env, FindArg(c.options, s.name).value, s.text, s.negated, e)
    else if IsGroup(token) then
      var split := SplitValue(token[1..]);
      !(split.value.Some? && |split.name| != 1) && GroupDue(env, c, split.name, split.value, e)
    else false
  }

  // The error due at a token after the tokens before it, one condition for each error.
  ghost predicate Due(env: Env, root: Command, before: seq<string>, token: string, e: Error) {
    var c, p := ActiveAt(root, before), PlaceOf(root, before);
    var args := c.positionals;
    var selects := "--" !in before && IsWord(token) && args == [];
    match e
    case NoPositionalsForSuffix => token == "--" && "--" !in before && args == []
    case SuffixAfterAllPositionals => token == "--" && "--" !in before && args != [] && p.index >= |args|
    case SuffixBeyondPositionals =>
      token == "--" && (p.appending || AfterMark(before)) && p.index + 1 >= |args|
    case TooManyPositionals(w) => w == token && TakesWord(root, before, token) && p.index >= |args|
    case Unexpected(w) => w == token && selects && c.subcommands == []
    case InvalidSubcommand(w) =>
      w == token && selects && c.subcommands != [] && forall sub :: sub in c.subcommands ==> sub.name != token
    case MissingOptions(names) =>
      && selects && (exists sub :: sub in c.subcommands && sub.name == token)
      && names == MissingAt(env, root, before) != {}
    case UnknownOption(n) =>
      "--" !in before && IsLong(token) && n == LongParts(token).name && n !in NamesOf(c.options)
    case GroupWithValue(letters) =>
      && "--" !in before && IsGroup(token) && letters == SplitValue(token[1..]).name
      && SplitValue(token[1..]).value.Some? && |letters| != 1
    case MissingPositional(_) => false
    case NoSubcommand => false
    case _ => ValueDue(env, root, before, token, e)
  }

  ghost predicate Fine(env: Env, root: Command, before: seq<string>, token: string) {
    forall e :: !Due(env, root, before, token, e)
  }

  // No token is refused.
  ghost predicate Readable(env: Env, root: Command, tokens: seq<string>)
    decreases |tokens|
  {
    tokens == [] ||
    (Readable(env, root, tokens[..|tokens| - 1]) && Fine(env, root, tokens[..|tokens| - 1], tokens[|tokens| - 1]))
  }

  // Some token is refused with an error, and none before it is refused.
  ghost predicate RefusedAt(env: Env, root: Command, tokens: seq<string>, k: nat, e: Error)
    requires k < |tokens|
  {
    Readable(env, root, tokens[..k]) && Due(env, root, tokens[..k], tokens[k], e)
  }

  ghost predicate TokenRefused(env: Env, root: Command, tokens: seq<string>, e: Error) {
    exists k :: 0 <= k < |tokens| && RefusedAt(env, root, tokens, k, e)
  }

  // --- When a readable command line is refused ---

  // The first positional argument that was not passed.
  function Left(root: Command, tokens: seq<string>): nat {
    var p := PlaceOf(root, tokens);
    if p.appending then p.index + 1 else p.index
  }

  ghost predicate Complete(env: Env, root: Command, tokens: seq<string>) {
    var args := ActiveAt(root, tokens).positionals;
    MissingAt(env, root, tokens) == {} && forall i :: Left(root, tokens) <= i < |args| ==> !args[i].isRequired
  }

  ghost predicate DueAtEnd(env: Env, root: Command, tokens: seq<string>, e: Error) {
    var c, left := ActiveAt(root, tokens), Left(root, tokens);
    && LastMeta(Reading(env, root, tokens)) == None
    && match e
       case MissingOptions(names) => names == MissingAt(env, root, tokens) != {}
       case MissingPositional(n) =>
         && MissingAt(env, root, tokens) == {} && !Complete(env, root, tokens)
         && left < |c.positionals| && n == c.positionals[left].name
       case NoSubcommand => Complete(env, root, tokens) && c.kind == RequiresSubcommand
       case _ => false
  }

  // --- The parser one token further ---

  function StepAt(env: Env, s: State, before: seq<string>, token: string): Step {
    if "--" in before then PositionalSuffix(env, s, [token], AfterMark(before))
    else if token != "--" then Token(env, s, token)
    else if Active(s).positionals == [] then Fail(NoPositionalsForSuffix)
    else if s.index >= |Active(s).positionals| then Fail(SuffixAfterAllPositionals)
    else PositionalSuffix(env, s, [token], false)
  }

  lemma {:induction false} SuffixSnoc(env: Env, s: State, before: seq<string>, token: string, mark: bool)
    ensures PositionalSuffix(env, s, before + [token], mark) ==
              match PositionalSuffix(env, s, before, mark)
              case Fail(e) => Fail(e)
              case Ok(s') => PositionalSuffix(env, s', [token], if before == [] then mark else AfterMark(before))
    decreases |before|
  {
    hide Positional;
    if before == [] {
      assert before + [token] == [token];
    } else {
      assert (before + [token])[1..] == before[1..] + [token];
      var index := if s.appending || mark then s.index + 1 else s.index;
      if before[0] != "--" {
        var a := Positional(env, s, before[0]);
        if a.Ok? { SuffixSnoc(env, a.state, before[1..], token, false); }
      } else if !(index > s.index && index >= |Active(s).positionals|) {
        SuffixSnoc(env, s.(index := index, appending := false), before[1..], token, true);
      }
    }
  }

  lemma {:induction false} TokensSnoc(env: Env, s: State, before: seq<string>, token: string)
    ensures Tokens(env, s, before + [token]) ==
              match Tokens(env, s, before)
              case Fail(e) => Fail(e)
              case Ok(s') => StepAt(env, s', before, token)
    decreases |before|
  {
    hide Token, PositionalSuffix;
    if before == [] {
      assert before + [token] == [token];
      if token != "--" && Token(env, s, token).Ok? { assert [token][1..] == []; }
    } else if before[0] == "--" {
      SuffixSnoc(env, s, before, token, false);
    } else {
      assert (before + [token])[1..] == before[1..] + [token];
      var a := Token(env, s, before[0]);
      if a.Ok? { TokensSnoc(env, a.state, before[1..], token); }
    }
  }

  // --- What the parser knows after some tokens is what they say ---

  ghost predicate AllMean(env: Env, h: seq<Event>) {
    forall e :: e in h ==> MeaningOf(env, e).Means?
  }

  // The meta action is the last one read, and every occurrence has a meaning.
  ghost predicate Recorded(env: Env, s: State) {
    s.meta == LastMeta(s.history) && AllMean(env, s.history)
  }

  ghost predicate Describes(env: Env, root: Command, tokens: seq<string>, s: State) {
    && s.path == PathOf(root, tokens) && Place(s.index, s.appending) == PlaceOf(root, tokens)
    && s.history == Reading(env, root, tokens)
  }

  lemma OneMoreMeta(h: seq<Event>, e: Event)
    ensures LastMeta(h + [e]) == if !e.SubcommandEvent? && e.arg.hasMeta then IdOf(e) else LastMeta(h)
  {
    assert (h + [e])[..|h|] == h;
  }

  lemma OccurRecords(env: Env, s: State, e: Event)
    requires Recorded(env, s) && !e.SubcommandEvent? && Occur(env, s, e).Ok?
    ensures Recorded(env, Occur(env, s, e).state)
  {
    hide LastMeta;
    OneMoreMeta(s.history, e);
  }

  lemma Grow(env: Env, root: Command, before: seq<string>, token: string)
    ensures var tokens := before + [token];
            && tokens[..|tokens| - 1] == before && tokens[|tokens| - 1] == token
            && ("--" in tokens <==> "--" in before || token == "--")
            && Reading(env, root, tokens) == Reading(env, root, before) + ReadAt(env, root, before, token)
            && (Readable(env, root, tokens) <==> Readable(env, root, before) && Fine(env, root, before, token))
  {
    hide ReadAt, Due;
    var tokens := before + [token];
    assert tokens[..|tokens| - 1] == before;
  }

  // --- The errors that each kind of token may have ---

  lemma DueAtWord(env: Env, root: Command, before: seq<string>, token: string, e: Error)
    requires TakesWord(root, before, token)
    ensures var args, p := ActiveAt(root, before).positionals, PlaceOf(root, before);
            Due(env, root, before, token, e) <==>
              if p.index >= |args| then e == TooManyPositionals(token)
              else Refused(env, args[p.index], Some(token), false, e)
  {
    hide PlaceOf, ActiveAt, MissingAt, GroupDue, LongParts, SplitValue;
    WordKind(token);
  }

  lemma WordKind(token: string)
    ensures IsWord(token) ==> token != "--" && !IsLong(token) && !IsGroup(token)
    ensures token == "--" ==> !IsWord(token) && !IsLong(token) && !IsGroup(token)
    ensures !IsWord(token) && token != "--" ==>
              (IsLong(token) <==> !IsGroup(token)) && (IsLong(token) <==> StartsWith(token, "--"))
  {
    if StartsWith(token, "--") { assert token[..2] == "--"; }
  }

  lemma DueAtMark(env: Env, root: Command, before: seq<string>, e: Error)
    ensures var args, p := ActiveAt(root, before).positionals, PlaceOf(root, before);
            Due(env, root, before, "--", e) <==>
              || (e == NoPositionalsForSuffix && "--" !in before && args == [])
              || (e == SuffixAfterAllPositionals && "--" !in before && args != [] && p.index >= |args|)
              || (e == SuffixBeyondPositionals && (p.appending || AfterMark(before)) && p.index + 1 >= |args|)
  {
    hide PlaceOf, ActiveAt, MissingAt, GroupDue, LongParts, SplitValue;
    WordKind("--");
  }

  lemma DueAtName(env: Env, root: Command, before: seq<string>, token: string, e: Error)
    requires "--" !in before && IsWord(token) && ActiveAt(root, before).positionals == []
    ensures var subs := ActiveAt(root, before).subcommands; var missing := MissingAt(env, root, before);
            Due(env, root, before, token, e) <==>
              if subs == [] then e == Unexpected(token)
              else if forall sub :: sub in subs ==> sub.name != token then e == InvalidSubcommand(token)
              else missing != {} && e == MissingOptions(missing)
  {
    hide PlaceOf, ActiveAt, MissingAt, GroupDue, LongParts, SplitValue;
    WordKind(token);
  }

  lemma DueAtLong(env: Env, root: Command, before: seq<string>, token: string, e: Error)
    requires "--" !in before && IsLong(token)
    ensures var c, s := ActiveAt(root, before), LongParts(token);
            Due(env, root, before, token, e) <==>
              match FindArg(c.options, s.name)
              case None => e == UnknownOption(s.name)
              case Some(arg) => Refused(env, arg, s.text, s.negated, e)
  {
    hide PlaceOf, ActiveAt, MissingAt, GroupDue, LongParts, SplitValue;
    WordKind(token);
    if IsWord(token) { assert false; }
  }

  lemma DueAtGroup(env: Env, root: Command, before: seq<string>, token: string, e: Error)
    requires "--" !in before && IsGroup(token)
    ensures var c, split := ActiveAt(root, before), SplitValue(token[1..]);
            Due(env, root, before, token, e) <==>
              if split.value.Some? && |split.name| != 1 then e == GroupWithValue(split.name)
              else GroupDue(env, c, split.name, split.value, e)
  {
    hide PlaceOf, ActiveAt, MissingAt, LongParts, SplitValue, LetterFine;
    WordKind(token);
    if IsWord(token) { assert false; }
  }

  // --- One step of the parser ---

  lemma PathStays(env: Env, root: Command, before: seq<string>, token: string)
    requires "--" in before || token == "--" || Selected(ActiveAt(root, before), token) == None
    ensures PathOf(root, before + [token]) == PathOf(root, before)
  {
    hide Reading, ReadAt, Readable;
    Grow(env, root, before, token);
  }

  lemma PlaceStays(env: Env, root: Command, before: seq<string>, token: string)
    requires token != "--" && !TakesWord(root, before, token)
    ensures PlaceOf(root, before + [token]) == PlaceOf(root, before)
  {
    hide Reading, ReadAt, Readable, TakesWord;
    Grow(env, root, before, token);
  }

  lemma PlaceAfterWord(env: Env, root: Command, before: seq<string>, token: string)
    requires TakesWord(root, before, token)
    ensures var args, p := ActiveAt(root, before).positionals, PlaceOf(root, before);
            p.index < |args| ==>
              PlaceOf(root, before + [token]) ==
                if args[p.index].isAppend then Place(p.index, true) else Place(p.index + 1, false)
  {
    hide Reading, ReadAt, Readable;
    Grow(env, root, before, token);
  }

  lemma WordFails(env: Env, root: Command, before: seq<string>, token: string, s: State, e: Error)
    requires Describes(env, root, before, s) && TakesWord(root, before, token)
    ensures Positional(env, s, token) == Fail(e) <==> Due(env, root, before, token, e)
  {
    hide PathOf, PlaceOf, Reading, TakesWord, Due, Interpret, Refused, Denotes;
    DueAtWord(env, root, before, token, e);
    if s.index < |Active(s).positionals| { OccurrenceMeans(env, Active(s).positionals[s.index], Some(token), false); }
  }

  lemma WordDescribed(env: Env, root: Command, before: seq<string>, token: string, s: State)
    requires Describes(env, root, before, s) && Recorded(env, s) && TakesWord(root, before, token)
    requires Positional(env, s, token).Ok?
    ensures var s' := Positional(env, s, token).state;
            Describes(env, root, before + [token], s') && Recorded(env, s')
  {
    hide PathOf, PlaceOf, Reading, Interpret, LastMeta, Readable, MeaningOf, Recorded;
    Grow(env, root, before, token);
    PathStays(env, root, before, token);
    PlaceAfterWord(env, root, before, token);
    var arg := Active(s).positionals[s.index];
    var s0 := s.(appending := arg.isAppend, index := if arg.isAppend then s.index else s.index + 1);
    RecordedIgnores(env, s, s0);
    OccurRecords(env, s0, PositionalEvent(s.index, arg, token));
  }

  lemma RecordedIgnores(env: Env, s: State, s': State)
    requires Recorded(env, s) && s'.meta == s.meta && s'.history == s.history
    ensures Recorded(env, s')
  {}

  lemma MarkFails(env: Env, root: Command, before: seq<string>, s: State, e: Error)
    requires Describes(env, root, before, s) && Inv(env, s, |s.path| - 1)
    ensures StepAt(env, s, before, "--") == Fail(e) <==> Due(env, root, before, "--", e)
  {
    hide PathOf, PlaceOf, Reading, Due, Inv, Positional;
    DueAtMark(env, root, before, e);
    IndexFits(env, s);
    assert ["--"][1..] == [];
  }

  lemma MarkDescribed(env: Env, root: Command, before: seq<string>, s: State)
    requires Describes(env, root, before, s) && Recorded(env, s) && StepAt(env, s, before, "--").Ok?
    ensures var s' := StepAt(env, s, before, "--").state;
            Describes(env, root, before + ["--"], s') && Recorded(env, s')
  {
    hide PathOf, Reading, LastMeta, Readable, MeaningOf, Positional;
    Grow(env, root, before, "--");
    PathStays(env, root, before, "--");
    assert ["--"][1..] == [];
  }

  lemma MissingIs(env: Env, root: Command, before: seq<string>, s: State)
    requires Describes(env, root, before, s) && Inv(env, s, |s.path| - 1)
    ensures Missing(Active(s), s.parsed) == MissingAt(env, root, before)
  {
    hide PathOf, PlaceOf, Reading, Occurs;
  }

  lemma NameFails(env: Env, root: Command, before: seq<string>, token: string, s: State, e: Error)
    requires Describes(env, root, before, s) && Inv(env, s, |s.path| - 1)
    requires "--" !in before && IsWord(token) && Active(s).positionals == []
    ensures Token(env, s, token) == Fail(e) <==> Due(env, root, before, token, e)
  {
    hide PathOf, PlaceOf, Reading, Due, Inv, Missing, MissingAt, Defaults;
    DueAtName(env, root, before, token, e);
    MissingIs(env, root, before, s);
  }

  lemma NameDescribed(env: Env, root: Command, before: seq<string>, token: string, s: State)
    requires "--" !in before && IsWord(token) && token != "--" && Active(s).positionals == []
    requires Describes(env, root, before, s) && Recorded(env, s) && Token(env, s, token).Ok?
    ensures var s' := Token(env, s, token).state;
            Describes(env, root, before + [token], s') && Recorded(env, s')
  {
    hide PathOf, Reading, LastMeta, Readable, FinalizeOptions, PlaceOf, Letters, LongOption;
    Grow(env, root, before, token);
    WordKind(token);
    PlaceStays(env, root, before, token);
    PathDescends(env, root, before, token);
    FinalizeAddsNothing(s);
    OneMoreMeta(s.history, SubcommandEvent(token));
  }

  lemma PathDescends(env: Env, root: Command, before: seq<string>, token: string)
    requires "--" !in before && token != "--" && Selected(ActiveAt(root, before), token).Some?
    ensures PathOf(root, before + [token]) == PathOf(root, before) + [Selected(ActiveAt(root, before), token).value]
  {
    hide Reading, ReadAt, Readable;
    Grow(env, root, before, token);
  }

  lemma LongFails(env: Env, root: Command, before: seq<string>, token: string, s: State, e: Error)
    requires Describes(env, root, before, s) && "--" !in before && IsLong(token)
    ensures LongOption(env, s, token) == Fail(e) <==> Due(env, root, before, token, e)
  {
    hide PathOf, PlaceOf, Reading, Due, SplitValue, Interpret, Refused, Denotes;
    DueAtLong(env, root, before, token, e);
    var parts := LongParts(token);
    var arg := FindArg(Active(s).options, parts.name);
    if arg.Some? { OccurrenceMeans(env, arg.value, parts.text, parts.negated); }
  }

  lemma OptionStays(env: Env, root: Command, before: seq<string>, token: string)
    requires "--" !in before && !IsWord(token) && token != "--"
    ensures PathOf(root, before + [token]) == PathOf(root, before) && PlaceOf(root, before + [token]) == PlaceOf(root, before)
  {
    hide PathOf, PlaceOf;
    PathStays(env, root, before, token);
    PlaceStays(env, root, before, token);
  }

  lemma LongDescribed(env: Env, root: Command, before: seq<string>, token: string, s: State)
    requires "--" !in before && IsLong(token)
    requires Describes(env, root, before, s) && Recorded(env, s) && LongOption(env, s, token).Ok?
    ensures var s' := LongOption(env, s, token).state;
            Describes(env, root, before + [token], s') && Recorded(env, s')
  {
    hide PathOf, PlaceOf, Reading, Readable, SplitValue, MeaningOf, Recorded;
    Grow(env, root, before, token);
    WordKind(token);
    OptionStays(env, root, before, token);
    var parts := LongParts(token);
    var arg := FindArg(Active(s).options, parts.name).value;
    var s0 := s.(parsed := s.parsed + {arg.name});
    RecordedIgnores(env, s, s0);
    OccurRecords(env, s0, OptionEvent(|s.path| - 1, arg, parts.text, parts.negated));
  }

  // The first refused letter of a group is its first letter, or the first refused one of the others.
  lemma GroupDueStep(env: Env, c: Command, letters: string, text: Option<string>, e: Error)
    requires letters != ""
    ensures GroupDue(env, c, letters, text, e) <==>
              || LetterDue(env, c, letters[0], text, e)
              || (LetterFine(env, c, letters[0], text) && GroupDue(env, c, letters[1..], text, e))
  {
    hide LetterDue, LetterFine, GroupDue;
    if LetterDue(env, c, letters[0], text, e) {
      DueNow(env, c, letters, text, e, 0);
    } else if LetterFine(env, c, letters[0], text) && GroupDue(env, c, letters[1..], text, e) {
      DueLater(env, c, letters, text, e);
    } else if GroupDue(env, c, letters, text, e) {
      DueEarlier(env, c, letters, text, e);
    }
  }

  lemma DueNow(env: Env, c: Command, letters: string, text: Option<string>, e: Error, j: nat)
    requires j < |letters| && LetterDue(env, c, letters[j], text, e)
    requires forall i :: 0 <= i < j ==> LetterFine(env, c, letters[i], text)
    ensures GroupDue(env, c, letters, text, e)
  {
    hide LetterDue, LetterFine;
  }

  lemma DueAt(env: Env, c: Command, letters: string, text: Option<string>, e: Error) returns (j: nat)
    requires GroupDue(env, c, letters, text, e)
    ensures j < |letters| && LetterDue(env, c, letters[j], text, e)
    ensures forall i :: 0 <= i < j ==> LetterFine(env, c, letters[i], text)
  {
    hide LetterDue, LetterFine;
    j :| 0 <= j < |letters| && LetterDue(env, c, letters[j], text, e)
         && forall i :: 0 <= i < j ==> LetterFine(env, c, letters[i], text);
  }

  lemma DueLater(env: Env, c: Command, letters: string, text: Option<string>, e: Error)
    requires letters != "" && LetterFine(env, c, letters[0], text) && GroupDue(env, c, letters[1..], text, e)
    ensures GroupDue(env, c, letters, text, e)
  {
    hide LetterDue, LetterFine, GroupDue;
    var j := DueAt(env, c, letters[1..], text, e);
    forall i | 0 <= i < j + 1 ensures LetterFine(env, c, letters[i], text) {
      if i > 0 { assert letters[i] == letters[1..][i - 1]; }
    }
    DueNow(env, c, letters, text, e, j + 1);
  }

  lemma DueEarlier(env: Env, c: Command, letters: string, text: Option<string>, e: Error)
    requires letters != "" && !LetterDue(env, c, letters[0], text, e) && GroupDue(env, c, letters, text, e)
    ensures LetterFine(env, c, letters[0], text) && GroupDue(env, c, letters[1..], text, e)
  {
    hide LetterDue, LetterFine, GroupDue;
    var j := DueAt(env, c, letters, text, e);
    forall i | 0 <= i < j - 1 ensures LetterFine(env, c, letters[1..][i], text) {
      assert letters[1..][i] == letters[i + 1];
    }
    DueNow(env, c, letters[1..], text, e, j - 1);
  }

  lemma LetterFails(env: Env, s: State, letter: char, text: Option<string>)
    ensures forall e :: Letter(env, s, letter, text) == Fail(e) <==> LetterDue(env, Active(s), letter, text, e)
    ensures Letter(env, s, letter, text).Ok? <==> LetterFine(env, Active(s), letter, text)
  {
    hide Interpret, Refused, Denotes, ShortTable;
    var table := ShortTable(env.visit(Active(s)));
    if letter in table { OccurrenceMeans(env, table[letter], text, false); }
    if Letter(env, s, letter, text).Fail? { assert LetterDue(env, Active(s), letter, text, Letter(env, s, letter, text).error); }
  }

  lemma {:induction false} LettersFail(env: Env, s: State, letters: string, text: Option<string>, e: Error)
    ensures Letters(env, s, letters, text) == Fail(e) <==> GroupDue(env, Active(s), letters, text, e)
    decreases |letters|
  {
    hide Letter, LetterDue, LetterFine, GroupDue;
    if letters == "" {
      NoLetters(env, Active(s), text, e);
    } else {
      GroupDueStep(env, Active(s), letters, text, e);
      LetterFails(env, s, letters[0], text);
      LetterOnce(env, s, letters[0], text);
      var a := Letter(env, s, letters[0], text);
      if a.Ok? { LettersFail(env, a.state, letters[1..], text, e); }
    }
  }

  lemma NoLetters(env: Env, c: Command, text: Option<string>, e: Error)
    ensures !GroupDue(env, c, "", text, e)
  {}

  lemma LetterOnce(env: Env, s: State, letter: char, text: Option<string>)
    ensures Letter(env, s, letter, text).Ok? ==>
              var s' := Letter(env, s, letter, text).state;
              && s'.path == s.path && s'.index == s.index && s'.appending == s.appending
              && (forall e :: !LetterDue(env, Active(s), letter, text, e))
              && (Recorded(env, s) ==>
                    Recorded(env, s') && s'.history == s.history + SpelledLetters(env, Active(s), |s.path| - 1, [letter], text))
  {
    hide Interpret, ShortTable, LetterDue, Recorded;
    LetterFails(env, s, letter, text);
    var table := ShortTable(env.visit(Active(s)));
    if Letter(env, s, letter, text).Ok? && Recorded(env, s) {
      var s0 := s.(parsed := s.parsed + {table[letter].name});
      RecordedIgnores(env, s, s0);
      OccurRecords(env, s0, OptionEvent(|s.path| - 1, table[letter], text, false));
      assert [letter][1..] == "";
    }
  }

  lemma {:induction false} LettersRecord(env: Env, s: State, letters: string, text: Option<string>)
    requires Recorded(env, s) && Letters(env, s, letters, text).Ok?
    ensures var s' := Letters(env, s, letters, text).state;
            && s'.path == s.path && s'.index == s.index && s'.appending == s.appending && Recorded(env, s')
            && s'.history == s.history + SpelledLetters(env, Active(s), |s.path| - 1, letters, text)
    decreases |letters|
  {
    hide Letter, Recorded, ShortTable;
    if letters == "" {
    } else {
      LetterOnce(env, s, letters[0], text);
      LettersRecord(env, Letter(env, s, letters[0], text).state, letters[1..], text);
      assert [letters[0]][1..] == "";
    }
  }

  lemma GroupFails(env: Env, root: Command, before: seq<string>, token: string, s: State, e: Error)
    requires Describes(env, root, before, s) && "--" !in before && IsGroup(token)
    ensures ShortGroup(env, s, token) == Fail(e) <==> Due(env, root, before, token, e)
  {
    hide PathOf, PlaceOf, Reading, Due, SplitValue, GroupDue, Letters;
    DueAtGroup(env, root, before, token, e);
    var split := SplitValue(token[1..]);
    LettersFail(env, s, split.name, split.value, e);
  }

  lemma GroupDescribed(env: Env, root: Command, before: seq<string>, token: string, s: State)
    requires "--" !in before && IsGroup(token)
    requires Describes(env, root, before, s) && Recorded(env, s) && ShortGroup(env, s, token).Ok?
    ensures var s' := ShortGroup(env, s, token).state;
            Describes(env, root, before + [token], s') && Recorded(env, s')
  {
    hide PathOf, PlaceOf, Reading, Readable, SplitValue, Letters, Recorded, SpelledLetters;
    Grow(env, root, before, token);
    WordKind(token);
    OptionStays(env, root, before, token);
    var split := SplitValue(token[1..]);
    LettersRecord(env, s, split.name, split.value);
  }

  // One word after a `--`.
  lemma SuffixWord(env: Env, s: State, token: string, mark: bool)
    requires token != "--"
    ensures PositionalSuffix(env, s, [token], mark) == Positional(env, s, token)
  {
    hide Positional;
    assert [token][1..] == [];
    if Positional(env, s, token).Ok? {
      assert PositionalSuffix(env, Positional(env, s, token).state, [], false) == Ok(Positional(env, s, token).state);
    }
  }

  lemma StepIs(env: Env, s: State, root: Command, before: seq<string>, token: string)
    requires Describes(env, root, before, s)
    ensures TakesWord(root, before, token) ==> StepAt(env, s, before, token) == Positional(env, s, token)
    ensures "--" !in before && IsLong(token) ==> StepAt(env, s, before, token) == LongOption(env, s, token)
    ensures "--" !in before && IsGroup(token) ==> StepAt(env, s, before, token) == ShortGroup(env, s, token)
    ensures "--" !in before && IsWord(token) && token != "--" ==> StepAt(env, s, before, token) == Token(env, s, token)
  {
    hide PathOf, PlaceOf, Reading, Positional, PositionalSuffix, LongOption, ShortGroup, Subcommand;
    WordKind(token);
    if token != "--" { SuffixWord(env, s, token, AfterMark(before)); }
  }

  lemma StepFails(env: Env, root: Command, before: seq<string>, token: string, s: State, e: Error)
    requires Describes(env, root, before, s) && Inv(env, s, |s.path| - 1)
    ensures StepAt(env, s, before, token) == Fail(e) <==> Due(env, root, before, token, e)
  {
    hide Inv, Due, StepAt, Positional, Token, LongOption, ShortGroup, PlaceOf, PathOf, Reading;
    WordKind(token);
    StepIs(env, s, root, before, token);
    if token == "--" {
      MarkFails(env, root, before, s, e);
    } else if TakesWord(root, before, token) {
      WordFails(env, root, before, token, s, e);
    } else if IsLong(token) {
      LongFails(env, root, before, token, s, e);
    } else if IsGroup(token) {
      GroupFails(env, root, before, token, s, e);
    } else {
      NameFails(env, root, before, token, s, e);
    }
  }

  lemma StepDescribed(env: Env, root: Command, before: seq<string>, token: string, s: State)
    requires Describes(env, root, before, s) && Recorded(env, s) && StepAt(env, s, before, token).Ok?
    ensures var s' := StepAt(env, s, before, token).state;
            Describes(env, root, before + [token], s') && Recorded(env, s')
  {
    hide Recorded, StepAt, Positional, Token, LongOption, ShortGroup, PlaceOf, PathOf, Reading;
    WordKind(token);
    StepIs(env, s, root, before, token);
    if token == "--" {
      MarkDescribed(env, root, before, s);
    } else if TakesWord(root, before, token) {
      WordDescribed(env, root, before, token, s);
    } else if IsLong(token) {
      LongDescribed(env, root, before, token, s);
    } else if IsGroup(token) {
      GroupDescribed(env, root, before, token, s);
    } else {
      NameDescribed(env, root, before, token, s);
    }
  }

  lemma RefusedStep(env: Env, root: Command, before: seq<string>, token: string, e: Error)
    ensures TokenRefused(env, root, before + [token], e) <==>
              TokenRefused(env, root, before, e) || (Readable(env, root, before) && Due(env, root, before, token, e))
  {
    hide Readable, Due;
    var tokens := before + [token];
    assert tokens[..|before|] == before;
    forall k | 0 <= k < |before| ensures RefusedAt(env, root, tokens, k, e) <==> RefusedAt(env, root, before, k, e) {
      assert tokens[..k] == before[..k];
    }
    assert RefusedAt(env, root, tokens, |before|, e) <==> Readable(env, root, before) && Due(env, root, before, token, e);
  }

  // The parser takes the tokens exactly when none is refused; it fails with exactly the error of the
  // first token refused; and what it knows is what the tokens say.
  lemma {:induction false} TokensDecide(env: Env, root: Command, tokens: seq<string>)
    requires WalksOptions(env) && Built(root) && Configured(root)
    ensures Tokens(env, Start(root), tokens).Ok? <==> Readable(env, root, tokens)
    ensures forall e :: Tokens(env, Start(root), tokens) == Fail(e) <==> TokenRefused(env, root, tokens, e)
    ensures Tokens(env, Start(root), tokens).Ok? ==>
              var s := Tokens(env, Start(root), tokens).state;
              Describes(env, root, tokens, s) && Recorded(env, s) && Inv(env, s, |s.path| - 1)
    decreases |tokens|
  {
    hide WalksOptions, Built, Configured, Describes, Recorded, Inv, StepAt, Tokens, TokenRefused, Due, Fine, Readable;
    if tokens == [] {
      NoTokens(env, root);
    } else {
      var before, token := tokens[..|tokens| - 1], tokens[|tokens| - 1];
      assert tokens == before + [token];
      TokensDecide(env, root, before);
      TokensSnoc(env, Start(root), before, token);
      Grow(env, root, before, token);
      forall e ensures TokenRefused(env, root, tokens, e) <==>
                         TokenRefused(env, root, before, e) || (Readable(env, root, before) && Due(env, root, before, token, e))
      {
        RefusedStep(env, root, before, token, e);
      }
      if Tokens(env, Start(root), before).Ok? {
        var s := Tokens(env, Start(root), before).state;
        forall e ensures StepAt(env, s, before, token) == Fail(e) <==> Due(env, root, before, token, e) {
          StepFails(env, root, before, token, s, e);
        }
        FineIs(env, root, before, token);
        if StepAt(env, s, before, token).Ok? {
          StepDescribed(env, root, before, token, s);
          ParseReads(env, root, tokens);
        }
      }
    }
  }

  lemma FineIs(env: Env, root: Command, before: seq<string>, token: string)
    ensures Fine(env, root, before, token) <==> forall e :: !Due(env, root, before, token, e)
  {
    hide Due;
  }

  lemma NoTokens(env: Env, root: Command)
    requires Built(root) && Configured(root)
    ensures Tokens(env, Start(root), []) == Ok(Start(root)) && Readable(env, root, [])
    ensures forall e :: !TokenRefused(env, root, [], e)
    ensures Describes(env, root, [], Start(root)) && Recorded(env, Start(root)) && Inv(env, Start(root), 0)
  {
    hide Inv, Built, Configured;
    StartOk(env, root);
  }

  // --- The outcome ---

  // Everything required was given, as far as the parser knows.
  ghost predicate Done(s: State) {
    && (forall o :: o in Active(s).options && o.isRequired ==> o.name in s.parsed)
    && (forall i :: 0 <= i < |Active(s).positionals| && Active(s).positionals[i].isRequired ==>
          i < s.index || (i == s.index && s.appending))
  }

  lemma FinishMeans(env: Env, s: State)
    requires Inv(env, s, |s.path| - 1)
    ensures Finish(s).Success? <==> s.meta == None && Done(s) && Active(s).kind == Action
    ensures Finish(s).MetaSuccess? <==> s.meta.Some? || (Done(s) && Active(s).kind == MetaAction)
    ensures Finish(s) == Failure(NoSubcommand) <==> s.meta == None && Done(s) && Active(s).kind == RequiresSubcommand
  {
    hide Inv, Defaults;
    IndexFits(env, s);
    ActiveFits(env, s);
    LaterOptional(Active(s).positionals, if s.appending then s.index + 1 else s.index);
    assert (forall o :: o in Active(s).options && o.isRequired ==> o.name in s.parsed) <==> Missing(Active(s), s.parsed) == {}
    by {
      if Missing(Active(s), s.parsed) == {} {
        forall o | o in Active(s).options && o.isRequired ensures o.name in s.parsed {
          assert o.name !in Missing(Active(s), s.parsed);
        }
      }
    }
  }

  lemma FinishIs(env: Env, root: Command, tokens: seq<string>, s: State)
    requires Describes(env, root, tokens, s) && Recorded(env, s) && Inv(env, s, |s.path| - 1)
    ensures var c, meta := ActiveAt(root, tokens), LastMeta(Reading(env, root, tokens));
            && (forall e :: Finish(s) == Failure(e) <==> DueAtEnd(env, root, tokens, e))
            && (Finish(s).Success? <==> meta == None && Complete(env, root, tokens) && c.kind == Action)
            && (Finish(s).MetaSuccess? <==> meta.Some? || (Complete(env, root, tokens) && c.kind == MetaAction))
            && (!Finish(s).Failure? ==> var s' := Finish(s).state; s'.(stored := s.stored, index := s.index) == s)
  {
    hide PathOf, PlaceOf, Reading, LastMeta, Missing, MissingAt, Defaults, Inv, AllMean;
    MissingIs(env, root, tokens, s);
    IndexFits(env, s);
    ActiveFits(env, s);
    LaterOptional(Active(s).positionals, Left(root, tokens));
  }

  lemma ActiveFits(env: Env, s: State)
    requires Inv(env, s, |s.path| - 1)
    ensures RequiredFirst(Active(s).positionals) && Active(s).kind != Invalid
  {
    assert Active(s) in s.path && Built(Active(s)) && Configured(Active(s));
  }

  lemma LaterOptional(args: seq<Arg>, left: nat)
    requires RequiredFirst(args)
    ensures (forall i :: left <= i < |args| ==> !args[i].isRequired) <==> left >= |args| || !args[left].isRequired
  {}

  // Which outcome a parse has. It fails with an error exactly when the error is due at the first
  // token refused, or all tokens are readable and it is due at the end. It succeeds exactly when all
  // tokens are readable, no meta action was read, everything required was given, and the selected
  // command has an action. It succeeds as a meta action exactly when all tokens are readable and a
  // meta action was read, or the selected command is one and everything required was given.
  lemma OutcomeIs(env: Env, root: Command, tokens: seq<string>)
    requires WalksOptions(env) && Built(root) && Configured(root)
    ensures var p, c := Parse(env, root, tokens), ActiveAt(root, tokens);
            var readable, meta := Readable(env, root, tokens), LastMeta(Reading(env, root, tokens));
            && (forall e :: p == Failure(e) <==>
                  TokenRefused(env, root, tokens, e) || (readable && DueAtEnd(env, root, tokens, e)))
            && (p.Success? <==> readable && meta == None && Complete(env, root, tokens) && c.kind == Action)
            && (p.MetaSuccess? <==>
                  readable && (meta.Some? || (Complete(env, root, tokens) && c.kind == MetaAction)))
    ensures var p := Parse(env, root, tokens);
            !p.Failure? ==>
              && p.state.path == PathOf(root, tokens) && p.state.history == Reading(env, root, tokens)
              && p.state.meta == LastMeta(Reading(env, root, tokens)) && AllMean(env, p.state.history)
  {
    hide WalksOptions, Built, Configured, Inv, Tokens, TokenRefused, Readable, DueAtEnd, Complete, Finish,
         ActiveAt, PathOf, Reading, LastMeta, PlaceOf, AllMean;
    TokensDecide(env, root, tokens);
    if Tokens(env, Start(root), tokens).Ok? { FinishIs(env, root, tokens, Tokens(env, Start(root), tokens).state); }
  }

  // --- What the arguments hold ---

  function OccurrencesOf(h: seq<Event>, id: ArgId): seq<Event> {
    if h == [] then []
    else OccurrencesOf(h[..|h| - 1], id) + (if IdOf(h[|h| - 1]) == Some(id) then [h[|h| - 1]] else [])
  }

  ghost predicate Gives(env: Env, e: Event, v: Value) {
    match e
    case OptionEvent(_, arg, text, negated) => Denotes(env, arg, text, negated, v)
    case PositionalEvent(_, arg, word) => Denotes(env, arg, Some(word), false, v)
    case SubcommandEvent(_) => false
  }

  // An argument that appends holds the values of its occurrences in order, another one the value of
  // the last. A mere meta action holds nothing.
  ghost predicate Holds(env: Env, arg: Arg, occurrences: seq<Event>, held: seq<Value>) {
    if arg.kind == MetaActionOnly || occurrences == [] then held == []
    else if arg.isAppend then
      |held| == |occurrences| && forall k :: 0 <= k < |held| ==> Gives(env, occurrences[k], held[k])
    else |held| == 1 && Gives(env, occurrences[|occurrences| - 1], held[0])
  }

  lemma {:induction false} ValuesAreHeld(env: Env, h: seq<Event>, id: ArgId, arg: Arg)
    requires AllMean(env, h) && forall e :: e in h && IdOf(e) == Some(id) ==> e.arg == arg
    ensures Holds(env, arg, OccurrencesOf(h, id), ValuesOf(env, h, id))
  {
    hide MeaningOf, Gives, Holds;
    if h == [] {
      NothingHeld(env, arg);
    } else {
      var before, e := h[..|h| - 1], h[|h| - 1];
      assert h == before + [e] && e in h;
      ValuesAreHeld(env, before, id, arg);
      if IdOf(e) == Some(id) {
        EventGives(env, e);
        HoldsMore(env, arg, OccurrencesOf(before, id), ValuesOf(env, before, id), e);
      } else {
        assert OccurrencesOf(h, id) == OccurrencesOf(before, id);
      }
    }
  }

  lemma NothingHeld(env: Env, arg: Arg)
    ensures Holds(env, arg, [], [])
  {}

  lemma EventGives(env: Env, e: Event)
    requires !e.SubcommandEvent? && MeaningOf(env, e).Means?
    ensures MeaningOf(env, e).value == None <==> e.arg.kind == MetaActionOnly
    ensures MeaningOf(env, e).value.Some? ==> Gives(env, e, MeaningOf(env, e).value.value)
  {
    hide Interpret, Denotes, Refused;
    var text := if e.OptionEvent? then e.value else Some(e.word);
    OccurrenceMeans(env, e.arg, text, e.OptionEvent? && e.negated);
    MetaGivesNothing(env, e.arg, text, e.OptionEvent? && e.negated);
  }

  lemma HoldsMore(env: Env, arg: Arg, occurrences: seq<Event>, held: seq<Value>, e: Event)
    requires Holds(env, arg, occurrences, held) && !e.SubcommandEvent? && e.arg == arg && MeaningOf(env, e).Means?
    requires MeaningOf(env, e).value == None <==> arg.kind == MetaActionOnly
    requires MeaningOf(env, e).value.Some? ==> Gives(env, e, MeaningOf(env, e).value.value)
    ensures var v := MeaningOf(env, e).value;
            Holds(env, arg, occurrences + [e],
                  if v.Some? then if arg.isAppend then held + [v.value] else [v.value] else held)
  {
    hide MeaningOf, Gives;
  }

  lemma MetaGivesNothing(env: Env, arg: Arg, text: Option<string>, negated: bool)
    ensures arg.kind == MetaActionOnly ==> forall v :: Interpret(env, arg, text, negated) != Means(Some(v))
  {}

  lemma {:induction false} OptionsAlone(h: seq<Event>, d: nat, n: string)
    ensures OccurrencesOf(OptionEvents(h), OptionId(d, n)) == OccurrencesOf(h, OptionId(d, n))
  {
    if h == [] {
    } else {
      var before, e := h[..|h| - 1], h[|h| - 1];
      OptionsAlone(before, d, n);
      assert (OptionEvents(before) + [e])[..|OptionEvents(before)|] == OptionEvents(before);
    }
  }

  lemma {:induction false} OccurredIff(h: seq<Event>, id: ArgId)
    ensures OccurrencesOf(h, id) == [] <==> !Occurs(h, id)
    ensures forall e :: e in OccurrencesOf(h, id) ==> e in h && IdOf(e) == Some(id)
  {
    if h == [] {
    } else {
      assert h == h[..|h| - 1] + [h[|h| - 1]];
      OccurredIff(h[..|h| - 1], id);
    }
  }

  // After a success every option of every selected command holds the values that its spelled
  // occurrences denote; one that was not spelled holds its default, if it has one.
  lemma OptionValues(env: Env, root: Command, tokens: seq<string>, d: nat, o: Arg)
    requires WalksOptions(env) && Built(root) && Configured(root) && Parse(env, root, tokens).Success?
    requires d < |Parse(env, root, tokens).state.path| && o in Parse(env, root, tokens).state.path[d].options
    ensures var id := OptionId(d, o.name); var held := Read(Parse(env, root, tokens).state.stored, id);
            var occurrences := OccurrencesOf(Spelled(env, root, 0, tokens), id);
            && (forall e :: e in occurrences ==> e.OptionEvent? && e.arg == o)
            && (if occurrences == [] then held == if o.default.Some? && !o.hasMeta then [o.default.value] else []
                else Holds(env, o, occurrences, held))
  {
    hide WalksOptions, Built, Configured, Inv, Tokens, Spelled, ValuesOf, Occurs, OccurrencesOf, Holds, MeaningOf,
         FinalizeOptions;
    var id := OptionId(d, o.name);
    var s := Tokens(env, Start(root), tokens).state;
    ParseReads(env, root, tokens);
    TokensDecide(env, root, tokens);
    FinalizeAddsNothing(s);
    OptionsHoldOccurrences(env, root, tokens, d, o);
    OptionsAlone(s.history, d, o.name);
    OptionEventsAreEvents(s.history);
    OccurredIff(Spelled(env, root, 0, tokens), id);
    OneArgumentEach(env, s, d, o);
    OptionsMean(env, s);
    ValuesAreHeld(env, Spelled(env, root, 0, tokens), id, o);
  }

  lemma OptionsMean(env: Env, s: State)
    requires Recorded(env, s)
    ensures AllMean(env, OptionEvents(s.history))
  {
    hide MeaningOf, LastMeta;
    OptionEventsAreEvents(s.history);
  }

  lemma OneArgumentEach(env: Env, s: State, d: nat, o: Arg)
    requires Inv(env, s, |s.path| - 1) && d < |s.path| && o in s.path[d].options
    ensures forall e :: e in OptionEvents(s.history) && IdOf(e) == Some(OptionId(d, o.name)) ==> e.arg == o
  {
    hide ValuesOf, Occurs, Configured;
    OptionEventsAreEvents(s.history);
    assert s.path[d] in s.path && Built(s.path[d]) && DistinctNames(s.path[d].options);
  }

  // After a success every positional argument holds the values that its words denote.
  lemma PositionalValues(env: Env, root: Command, tokens: seq<string>, i: nat)
    requires WalksOptions(env) && Built(root) && Configured(root) && Parse(env, root, tokens).Success?
    requires i < |ActiveAt(root, tokens).positionals|
    ensures Holds(env, ActiveAt(root, tokens).positionals[i], OccurrencesOf(Reading(env, root, tokens), PositionalId(i)),
                  Read(Parse(env, root, tokens).state.stored, PositionalId(i)))
  {
    hide WalksOptions, Built, Configured, Inv, Tokens, Reading, ValuesOf, OccurrencesOf, Holds, MeaningOf, FinalizeOptions,
         LastMeta, PlaceOf;
    var s := Tokens(env, Start(root), tokens).state;
    TokensDecide(env, root, tokens);
    FinalizeAddsNothing(s);
    FinalizeKeepsInv(env, s);
    WordsAreIts(env, FinalizeOptions(s).state, i);
    ValuesAreHeld(env, s.history, PositionalId(i), ActiveAt(root, tokens).positionals[i]);
  }

  lemma WordsAreIts(env: Env, s: State, i: nat)
    requires Inv(env, s, |s.path|) && i < |Active(s).positionals|
    ensures Read(s.stored, PositionalId(i)) == ValuesOf(env, s.history, PositionalId(i))
    ensures forall e :: e in s.history && IdOf(e) == Some(PositionalId(i)) ==> e.arg == Active(s).positionals[i]
  {}

  // What the last occurrence leaves in an argument that does not append, kind by kind.
  ghost predicate Leaves(env: Env, arg: Arg, text: Option<string>, negated: bool, held: seq<Value>) {
    if arg.kind == Flag then
      || (held == [Bool(true)] && !negated && (text == None || text == Some("true")))
      || (held == [Bool(false)] && (if negated then text == None else text == Some("false")))
    else if arg.kind == MetaActionOnly then held == []
    else if text == None then !negated && arg.default.Some? && held == [arg.default.value]
    else if arg.kind == Integer then
      !negated && env.integer(text.value).Some? && held == [Int(env.integer(text.value).value)]
    else if arg.kind == String then !negated && held == [Str(text.value)]
    else
      && !negated && arg.kind.OneOf?
      && exists i: nat :: i < |arg.kind.values| && arg.kind.values[i] == text.value && held == [Chosen(i)]
  }

  lemma GivesLeaves(env: Env, e: Event, held: seq<Value>)
    requires e.OptionEvent? && !e.arg.isAppend && e.arg.kind != MetaActionOnly
    requires |held| == 1 && Gives(env, e, held[0])
    ensures Leaves(env, e.arg, e.value, e.negated, held)
  {
    if e.arg.kind.OneOf? && e.value.Some? {
      var i := held[0].index;
      assert e.arg.kind.values[i] == e.value.value;
    }
  }

  lemma LastValue(env: Env, root: Command, tokens: seq<string>, d: nat, o: Arg)
    requires WalksOptions(env) && Built(root) && Configured(root) && Parse(env, root, tokens).Success?
    requires d < |Parse(env, root, tokens).state.path| && o in Parse(env, root, tokens).state.path[d].options
    requires !o.isAppend && o.kind != MetaActionOnly
    ensures var occurrences := OccurrencesOf(Spelled(env, root, 0, tokens), OptionId(d, o.name));
            occurrences != [] ==>
              var last := occurrences[|occurrences| - 1];
              && last.OptionEvent?
              && Leaves(env, o, last.value, last.negated, Read(Parse(env, root, tokens).state.stored, OptionId(d, o.name)))
  {
    hide WalksOptions, Built, Configured, Spelled, Parse, OccurrencesOf, Gives, Leaves;
    OptionValues(env, root, tokens, d, o);
    var occurrences := OccurrencesOf(Spelled(env, root, 0, tokens), OptionId(d, o.name));
    if occurrences != [] {
      assert occurrences[|occurrences| - 1] in occurrences;
      GivesLeaves(env, occurrences[|occurrences| - 1], Read(Parse(env, root, tokens).state.stored, OptionId(d, o.name)));
    }
  }

  // --- How options are spelled ---

  function WithText(name: string, text: Option<string>): string {
    name + if text.Some? then "=" + text.value else ""
  }

  function LongText(s: Spelling): string {
    "--" + if s.negated then "no-" + WithText(s.name, s.text) else WithText(s.name, s.text)
  }

  predicate CanBeSpelled(s: Spelling) {
    '=' !in s.name && (!s.negated ==> !StartsWith(s.name, "no-")) && (s.name == "" && s.text == None ==> s.negated)
  }

  lemma SplitsAgain(name: string, text: Option<string>)
    requires '=' !in name
    ensures SplitValue(WithText(name, text)) == Split(name, text)
  {
    hide SplitValue;
    if text.Some? {
      SplitsAtFirst(name, text.value);
      assert WithText(name, text) == name + "=" + text.value;
    } else {
      SplitsAtFirst(name, "");
      assert WithText(name, text) == name;
    }
  }

  lemma SplitIsWhole(s: string)
    ensures var split := SplitValue(s);
            '=' !in split.name && s == WithText(split.name, split.value) && split.name <= s
  {
    var i := IndexOf(s, '=');
    if i < |s| {
      assert s == s[..i] + ([s[i]] + s[i + 1..]);
    } else {
      assert s[..i] == s;
    }
  }

  // The negation is read off the text after the dashes.
  lemma NegationIsRead(name: string, text: Option<string>)
    requires '=' !in name
    ensures StartsWith(WithText(name, text), "no-") <==> StartsWith(name, "no-")
  {
    var s := WithText(name, text);
    assert forall i :: 0 <= i < |name| ==> s[i] == name[i];
    if |name| < 3 && text.Some? { assert s[|name|] == '='; }
    if |name| >= 3 { assert s[..3] == name[..3]; }
  }

  lemma AfterPrefix(prefix: string, s: string)
    ensures (prefix + s)[|prefix|..] == s && StartsWith(prefix + s, prefix)
  {}

  // A long option is read as the name, the negation and the value it was spelled with.
  lemma LongIsRead(s: Spelling)
    requires CanBeSpelled(s)
    ensures IsLong(LongText(s)) && LongParts(LongText(s)) == s
  {
    hide SplitValue, WithText;
    var rest := if s.negated then "no-" + WithText(s.name, s.text) else WithText(s.name, s.text);
    SplitsAgain(s.name, s.text);
    NegationIsRead(s.name, s.text);
    AfterPrefix("--", rest);
    AfterPrefix("no-", WithText(s.name, s.text));
    NotAlone(s.name, s.text);
  }

  lemma NotAlone(name: string, text: Option<string>)
    ensures name != "" || text != None ==> WithText(name, text) != ""
  {}

  // Every long token is the spelling it is read as.
  lemma LongIsSpelled(token: string)
    requires IsLong(token)
    ensures CanBeSpelled(LongParts(token)) && LongText(LongParts(token)) == token
  {
    hide SplitValue, WithText;
    var rest := token[2..];
    Prefixed(token, "--");
    if StartsWith(rest, "no-") {
      Prefixed(rest, "no-");
      SplitIsWhole(rest[3..]);
    } else {
      SplitIsWhole(rest);
      var split := SplitValue(rest);
      NegationIsRead(split.name, split.value);
      NothingAlone();
    }
  }

  lemma Prefixed(s: string, prefix: string)
    requires StartsWith(s, prefix)
    ensures s == prefix + s[|prefix|..]
  {}

  lemma NothingAlone()
    ensures WithText("", None) == ""
  {}

  // A group of short options is read as its letters and the value after them.
  lemma GroupIsRead(letters: string, text: Option<string>)
    requires letters != "" && letters[0] != '-' && '=' !in letters
    ensures var token := "-" + WithText(letters, text);
            IsGroup(token) && SplitValue(token[1..]) == Split(letters, text)
  {
    hide SplitValue;
    var token := "-" + WithText(letters, text);
    assert token[1] == letters[0] && token[1..] == WithText(letters, text);
    SplitsAgain(letters, text);
  }

  // The option a letter names: one whose short name it is, if there is one.
  lemma {:induction false} LetterNames(args: seq<Arg>, letter: char)
    ensures letter in ShortTable(args) <==> exists a :: a in args && a.shortName != "" && a.shortName[0] == letter
  {
    if args == [] {
    } else {
      LetterNames(args[..|args| - 1], letter);
      assert args == args[..|args| - 1] + [args[|args| - 1]];
    }
  }

  // The occurrences that one token spells.
  lemma TokenSpells(env: Env, c: Command, depth: nat, token: string)
    ensures IsLong(token) ==>
              var s := LongParts(token);
              SpelledBy(env, c, depth, token) ==
                match FindArg(c.options, s.name)
                case None => []
                case Some(arg) => [OptionEvent(depth, arg, s.text, s.negated)]
    ensures IsGroup(token) ==>
              var split := SplitValue(token[1..]); var table := ShortTable(env.visit(c));
              (forall i :: 0 <= i < |split.name| ==> split.name[i] in table) ==>
                SpelledBy(env, c, depth, token) ==
                  seq(|split.name|, i requires 0 <= i < |split.name| && split.name[i] in table =>
                                      OptionEvent(depth, table[split.name[i]], split.value, false))
  {
    hide SplitValue, FindArg;
    WordKind(token);
    if IsGroup(token) {
      var split, table := SplitValue(token[1..]), ShortTable(env.visit(c));
      if forall i :: 0 <= i < |split.name| ==> split.name[i] in table {
        LettersSpell(env, c, depth, split.name, split.value);
      }
    }
  }

  lemma {:induction false} LettersSpell(env: Env, c: Command, depth: nat, letters: string, text: Option<string>)
    requires forall i :: 0 <= i < |letters| ==> letters[i] in ShortTable(env.visit(c))
    ensures var table := ShortTable(env.visit(c));
            SpelledLetters(env, c, depth, letters, text) ==
              seq(|letters|, i requires 0 <= i < |letters| && letters[i] in table =>
                               OptionEvent(depth, table[letters[i]], text, false))
    decreases |letters|
  {
    hide ShortTable;
    if letters == "" {
    } else {
      LettersSpell(env, c, depth, letters[1..], text);
    }
  }
}
