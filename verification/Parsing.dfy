/** The command builder and the parser as objects (common/command_line.cpp). Every method is tied to
    the function of the same step in CommandLine.dfy. */
module Parsing {
  import opened Options
  import opened CommandLine
  import opened CommandLineResults
  import opened CommandLineOutcomes

  // --- Building a command ---

  class CommandBuilder {
    var command: Command

    constructor (name: string)
      ensures Built(command) && command == Command(name, [], [], [], Invalid)
    {
      command := Command(name, [], [], [], Invalid);
    }

    // Adds an option; refused for an invalid or repeated name.
    method AddArg(arg: Arg) returns (ok: bool)
      requires Built(command)
      modifies this
      ensures Built(command)
      ensures ok == (IsValidName(arg.name) && arg.name !in NamesOf(old(command).options))
      ensures command == if ok then old(command).(options := old(command).options + [arg]) else old(command)
    {
      ok := IsValidName(arg.name) && arg.name !in NamesOf(command.options);
      if ok {
        command := command.(options := command.options + [arg]);
      }
    }

    // Adds a positional argument; refused next to subcommands, and when required after an optional one.
    method AddPositionalArg(arg: Arg) returns (ok: bool)
      requires Built(command)
      modifies this
      ensures Built(command)
      ensures ok == (IsValidName(arg.name) && old(command).subcommands == [] &&
                     (arg.isRequired ==> forall a :: a in old(command).positionals ==> a.isRequired))
      ensures command == if ok then old(command).(positionals := old(command).positionals + [arg]) else old(command)
    {
      var args := command.positionals;
      ok := IsValidName(arg.name) && command.subcommands == [] &&
            (arg.isRequired && |args| > 0 ==> args[|args| - 1].isRequired);
      assert |args| > 0 && args[|args| - 1].isRequired ==> forall a :: a in args ==> a.isRequired;
      assert |args| > 0 ==> args[|args| - 1] in args;
      if ok {
        command := command.(positionals := args + [arg]);
      }
    }

    // Adds a built command; refused for an invalid or repeated name, and next to positional arguments.
    method AddSubcommand(sub: Command) returns (ok: bool)
      requires Built(command) && Built(sub)
      modifies this
      ensures Built(command)
      ensures ok == (IsValidName(sub.name) && (forall c :: c in old(command).subcommands ==> c.name != sub.name) &&
                     old(command).positionals == [])
      ensures command == if ok then old(command).(subcommands := old(command).subcommands + [sub]) else old(command)
    {
      ok := IsValidName(sub.name) && (forall c :: c in command.subcommands ==> c.name != sub.name) &&
            command.positionals == [];
      if ok {
        ghost var before := command;
        command := command.(subcommands := command.subcommands + [sub]);
        assert forall c :: c in command.subcommands ==> c in before.subcommands || c == sub;
      }
    }

    method RequireSubcommand() returns (ok: bool)
      requires Built(command)
      modifies this
      ensures Built(command)
      ensures ok == (old(command).subcommands != [] && old(command).positionals == [] && old(command).kind == Invalid)
      ensures command == if ok then old(command).(kind := RequiresSubcommand) else old(command)
    {
      ok := command.subcommands != [] && command.positionals == [] && command.kind == Invalid;
      if ok {
        command := command.(kind := RequiresSubcommand);
      }
    }

    // `Do` and `Meta`
    method SetAction(isMeta: bool) returns (ok: bool)
      requires Built(command)
      modifies this
      ensures Built(command)
      ensures ok == (old(command).kind == Invalid)
      ensures command == if ok then old(command).(kind := if isMeta then MetaAction else Action) else old(command)
    {
      ok := command.kind == Invalid;
      if ok {
        command := command.(kind := if isMeta then MetaAction else Action);
      }
    }
  }

  // --- Parsing ---

  datatype Entry = Entry(arg: Arg, parsed: bool)

  datatype ParseResult = Parsed | MetaParsed | NotParsed(error: Error)

  // A parser method returns the error of its step, or none and leaves the state of the step.
  ghost predicate Follows(step: Step, r: Option<Error>, now: State) {
    match step
    case Fail(e) => r == Some(e)
    case Ok(s) => r == None && now == s
  }

  function ParsedOf(m: map<string, Entry>): set<string> {
    set n | n in m && m[n].parsed
  }

  lemma NothingParsed(m: map<string, Entry>)
    requires forall n :: n in m ==> !m[n].parsed
    ensures ParsedOf(m) == {}
  {}

  lemma OneMoreParsed(m: map<string, Entry>, arg: Arg)
    ensures ParsedOf(m[arg.name := Entry(arg, true)]) == ParsedOf(m) + {arg.name}
  {}

  lemma NothingFound()
    ensures forall n :: FindArg([], n) == None && FindCommand([], n) == None
  {}

  lemma FindInLonger(args: seq<Arg>, a: Arg, n: string)
    ensures FindArg(args + [a], n) ==
              if FindArg(args, n).Some? then FindArg(args, n) else if a.name == n then Some(a) else None
  {
    if args == [] {
      assert [a][1..] == [] && [] + [a] == [a];
    } else {
      assert (args + [a])[1..] == args[1..] + [a];
      if args[0].name != n { FindInLonger(args[1..], a, n); }
    }
  }

  lemma FindCommandInLonger(commands: seq<Command>, c: Command, n: string)
    ensures FindCommand(commands + [c], n) ==
              if FindCommand(commands, n).Some? then FindCommand(commands, n) else if c.name == n then Some(c) else None
  {
    if commands == [] {
      assert [c][1..] == [] && [] + [c] == [c];
    } else {
      assert (commands + [c])[1..] == commands[1..] + [c];
      if commands[0].name != n { FindCommandInLonger(commands[1..], c, n); }
    }
  }

  lemma LetterIsFound(env: Env, c: Command, letter: char)
    requires WalksOptions(env) && Built(c) && letter in ShortTable(env.visit(c))
    ensures var arg := ShortTable(env.visit(c))[letter]; FindArg(c.options, arg.name) == Some(arg)
  {}

  lemma GroupIsItsName(env: Env, s: State, token: string)
    requires StartsWith(token, "-") && |token| > 1
    ensures var split := SplitValue(token[1..]);
            && split.name[0..] == split.name
            && ShortGroup(env, s, token) ==
                 if split.value.Some? && |split.name| != 1 then Fail(GroupWithValue(split.name))
                 else Letters(env, s, split.name, split.value)
  {}

  lemma NextLetter(env: Env, s: State, letters: string, i: nat, value: Option<string>)
    requires i < |letters|
    ensures var a := Letter(env, s, letters[i], value);
            Letters(env, s, letters[i..], value) == if a.Ok? then Letters(env, a.state, letters[i + 1..], value) else a
  {
    assert letters[i..][0] == letters[i] && letters[i..][1..] == letters[i + 1..];
  }

  lemma NoLetterLeft(env: Env, s: State, letters: string, value: Option<string>)
    requires letters == ""
    ensures Letters(env, s, letters, value) == Ok(s)
  {}

  lemma MissingOption(c: Command, parsed: set<string>, option: Arg)
    requires DistinctNames(c.options) && option in c.options
    ensures option.name in Missing(c, parsed) <==> option.name !in parsed && option.isRequired
    ensures FindArg(c.options, option.name).Some?
  {}

  // The defaults of the options walked so far have been stored, over what was there before.
  ghost predicate Given(before: map<ArgId, seq<Value>>, now: map<ArgId, seq<Value>>,
                        defaults: map<ArgId, seq<Value>>, walked: set<string>) {
    && (forall id :: id in now <==> id in before || (id in defaults && id.OptionId? && id.name in walked))
    && (forall id :: id in now ==>
          now[id] == if id in defaults && id.OptionId? && id.name in walked then defaults[id] else before[id])
  }

  lemma WalkStarts(env: Env, c: Command, d: nat, parsed: set<string>, now: map<ArgId, seq<Value>>, walk: seq<Arg>)
    requires WalksOptions(env) && Built(c) && walk == env.visit(c)
    ensures NamesOf(walk) == NamesOf(c.options) && DistinctNames(c.options) && NamesOf(walk[..0]) == {}
    ensures forall a :: a in walk ==> a in c.options
    ensures Given(now, now, Defaults(c, d, parsed), {})
  {}

  // What storing, or not storing, the default of the next option on the walk leaves.
  lemma WalkStep(before: map<ArgId, seq<Value>>, now: map<ArgId, seq<Value>>, c: Command, d: nat, parsed: set<string>,
                 walk: seq<Arg>, i: nat)
    requires i < |walk| && walk[i] in c.options && DistinctNames(c.options)
    requires Given(before, now, Defaults(c, d, parsed), NamesOf(walk[..i]))
    ensures var option := walk[i]; var id := OptionId(d, option.name);
            && FindArg(c.options, option.name).Some?
            && NamesOf(walk[..i + 1]) == NamesOf(walk[..i]) + {option.name}
            && (option.name in Missing(c, parsed) <==> option.name !in parsed && option.isRequired)
            && Given(before, if option.name !in parsed && option.default.Some? && !option.hasMeta
                             then now[id := [option.default.value]] else now,
                     Defaults(c, d, parsed), NamesOf(walk[..i + 1]))
  {
    hide Defaults, Missing, FindArg, NamesOf, Given;
    var option, defaults := walk[i], Defaults(c, d, parsed);
    NameAfter(walk, i);
    DefaultOf(c, d, parsed, option);
    MissingOption(c, parsed, option);
    forall id | id in defaults ensures id.OptionId? && id.depth == d {
      OnlyThisDepth(c, d, parsed, id);
    }
    GivenMore(before, now, defaults, NamesOf(walk[..i]), OptionId(d, option.name));
  }

  lemma NameAfter(walk: seq<Arg>, i: nat)
    requires i < |walk|
    ensures NamesOf(walk[..i + 1]) == NamesOf(walk[..i]) + {walk[i].name}
  {
    assert walk[..i + 1] == walk[..i] + [walk[i]];
  }

  lemma GivenMore(before: map<ArgId, seq<Value>>, now: map<ArgId, seq<Value>>, defaults: map<ArgId, seq<Value>>,
                  walked: set<string>, id: ArgId)
    requires Given(before, now, defaults, walked) && id.OptionId?
    requires forall other :: other in defaults ==> other.OptionId? && other.depth == id.depth
    ensures Given(before, if id in defaults then now[id := defaults[id]] else now, defaults, walked + {id.name})
  {}

  lemma AllGiven(before: map<ArgId, seq<Value>>, now: map<ArgId, seq<Value>>, c: Command, d: nat, parsed: set<string>)
    requires Given(before, now, Defaults(c, d, parsed), NamesOf(c.options))
    ensures now == before + Defaults(c, d, parsed)
  {
    forall id | id in Defaults(c, d, parsed) ensures id.OptionId? && id.name in NamesOf(c.options) {
      var n :| n in Defaulted(c, parsed) && id == OptionId(d, n);
    }
  }

  lemma AllMissing(c: Command, parsed: set<string>)
    ensures Missing(c, parsed) * NamesOf(c.options) == Missing(c, parsed)
  {}

  lemma LaterAreOptional(c: Command, index: nat)
    requires Built(c) && index < |c.positionals| && !c.positionals[index].isRequired
    ensures forall a :: a in c.positionals[index..] ==> !a.isRequired
  {}

  lemma SubcommandIsBuilt(c: Command, sub: Command)
    requires Built(c) && Configured(c) && sub in c.subcommands
    ensures Built(sub) && Configured(sub)
  {}

  lemma BuiltOneKind(c: Command)
    requires Built(c)
    ensures c.positionals == [] || c.subcommands == []
  {}

  lemma HasKind(c: Command)
    requires Configured(c)
    ensures c.kind != Invalid
  {}

  lemma TokenKeeps(env: Env, s: State, token: string)
    requires WalksOptions(env) && Inv(env, s, |s.path| - 1) && token != "--"
    ensures var a := Token(env, s, token); a.Ok? ==> Inv(env, a.state, |a.state.path| - 1)
  {
    hide Inv, Token;
    if Token(env, s, token).Ok? { TokenKeepsInv(env, s, token); }
  }

  lemma SuffixKeeps(env: Env, s: State, tokens: seq<string>)
    requires Inv(env, s, |s.path| - 1)
    ensures var a := PositionalSuffix(env, s, tokens, false); a.Ok? ==> Inv(env, a.state, |a.state.path| - 1)
  {
    hide Inv, PositionalSuffix;
    if PositionalSuffix(env, s, tokens, false).Ok? { SuffixKeepsInv(env, s, tokens, false); }
  }

  class Parser {
    const env: Env
    var path: Path                            // command_ and its parents
    var optionMap: map<string, Entry>
    var shortTable: map<char, Arg>
    var subcommandMap: map<string, Command>
    var index: nat
    var appending: bool
    var meta: Option<ArgId>
    var stored: map<ArgId, seq<Value>>
    ghost var history: seq<Event>

    ghost function Abs(): State
      reads this
    {
      State(path, ParsedOf(optionMap), index, appending, meta, stored, history)
    }

    // The maps are those of the active command.
    ghost predicate Valid()
      reads this
    {
      var c := path[|path| - 1];
      && WalksOptions(env) && Built(c) && Configured(c)
      && (forall n :: n in optionMap <==> FindArg(c.options, n).Some?)
      && (forall n :: n in optionMap ==> FindArg(c.options, n) == Some(optionMap[n].arg))
      && shortTable == ShortTable(env.visit(c))
      && (forall n :: n in subcommandMap <==> FindCommand(c.subcommands, n).Some?)
      && (forall n :: n in subcommandMap ==> FindCommand(c.subcommands, n) == Some(subcommandMap[n]))
    }

    constructor (env: Env, root: Command)
      ensures this.env == env && Abs() == Start(root)
    {
      this.env := env;
      path, optionMap, shortTable, subcommandMap := [root], map[], map[], map[];
      index, appending, meta, stored, history := 0, false, None, map[], [];
    }

    method PopulateMaps()
      requires WalksOptions(env) && Built(path[|path| - 1]) && Configured(path[|path| - 1])
      modifies `optionMap, `shortTable, `subcommandMap
      ensures Valid() && Abs() == old(Abs()).(parsed := {})
    {
      hide Built, Configured, WalksOptions, FindArg, FindCommand, ShortTable, ParsedOf, Valid;
      var c := path[|path| - 1];
      optionMap := MapOptions(c.options);
      shortTable := TabulateShort(env.visit(c));
      subcommandMap := MapSubcommands(c.subcommands);
      NothingParsed(optionMap);
      MapsAreValid(c);
    }

    lemma MapsAreValid(c: Command)
      requires c == path[|path| - 1] && WalksOptions(env) && Built(c) && Configured(c)
      requires forall n :: n in optionMap <==> FindArg(c.options, n).Some?
      requires forall n :: n in optionMap ==> FindArg(c.options, n) == Some(optionMap[n].arg)
      requires shortTable == ShortTable(env.visit(c))
      requires forall n :: n in subcommandMap <==> FindCommand(c.subcommands, n).Some?
      requires forall n :: n in subcommandMap ==> FindCommand(c.subcommands, n) == Some(subcommandMap[n])
      ensures Valid()
    {
      hide Built, Configured, WalksOptions, FindArg, FindCommand, ShortTable;
    }

    static method MapOptions(options: seq<Arg>) returns (m: map<string, Entry>)
      ensures forall n :: n in m <==> FindArg(options, n).Some?
      ensures forall n :: n in m ==> FindArg(options, n) == Some(m[n].arg) && !m[n].parsed
    {
      hide FindArg;
      m := map[];
      NothingFound();
      for i := 0 to |options|
        invariant forall n :: n in m <==> FindArg(options[..i], n).Some?
        invariant forall n :: n in m ==> FindArg(options[..i], n) == Some(m[n].arg) && !m[n].parsed
      {
        var option := options[i];
        assert options[..i + 1] == options[..i] + [option];
        forall n ensures FindArg(options[..i + 1], n) ==
          if FindArg(options[..i], n).Some? then FindArg(options[..i], n) else if option.name == n then Some(option) else None
        {
          FindInLonger(options[..i], option, n);
        }
        if option.name !in m { m := m[option.name := Entry(option, false)]; }
      }
      assert options[..|options|] == options;
    }

    static method TabulateShort(walk: seq<Arg>) returns (table: map<char, Arg>)
      ensures table == ShortTable(walk)
    {
      table := map[];
      for i := 0 to |walk|
        invariant table == ShortTable(walk[..i])
      {
        var option := walk[i];
        assert walk[..i + 1][..i] == walk[..i];
        if option.shortName != "" { table := table[option.shortName[0] := option]; }
      }
      assert walk[..|walk|] == walk;
    }

    static method MapSubcommands(commands: seq<Command>) returns (m: map<string, Command>)
      ensures forall n :: n in m <==> FindCommand(commands, n).Some?
      ensures forall n :: n in m ==> FindCommand(commands, n) == Some(m[n])
    {
      hide FindCommand;
      m := map[];
      NothingFound();
      for i := 0 to |commands|
        invariant forall n :: n in m <==> FindCommand(commands[..i], n).Some?
        invariant forall n :: n in m ==> FindCommand(commands[..i], n) == Some(m[n])
      {
        var sub := commands[i];
        assert commands[..i + 1] == commands[..i] + [sub];
        forall n ensures FindCommand(commands[..i + 1], n) ==
          if FindCommand(commands[..i], n).Some? then FindCommand(commands[..i], n) else if sub.name == n then Some(sub) else None
        {
          FindCommandInLonger(commands[..i], sub, n);
        }
        if sub.name !in m { m := m[sub.name := sub]; }
      }
      assert commands[..|commands|] == commands;
    }

    // One occurrence of an argument: its meta action, then its value.
    method ParseArg(arg: Arg, id: ArgId, value: Option<string>, negated: bool, ghost e: Event) returns (r: Option<Error>)
      requires !e.SubcommandEvent? && e.arg == arg && IdOf(e) == Some(id)
      requires MeaningOf(env, e) == Interpret(env, arg, value, negated)
      modifies `meta, `stored, `history
      ensures Follows(Occur(env, old(Abs()), e), r, Abs())
      ensures forall error :: r == Some(error) <==> Refused(env, arg, value, negated, error)
      ensures r == None && arg.kind == MetaActionOnly ==> stored == old(stored)
      ensures r == None && arg.kind != MetaActionOnly ==>
                exists v :: Denotes(env, arg, value, negated, v) && stored == Stored(old(stored), id, arg, v)
    {
      OccurrenceMeans(env, arg, value, negated);
      hide Denotes, Refused;
      if arg.hasMeta { meta := Some(id); }
      history := history + [e];
      match Interpret(env, arg, value, negated) {
        case Wrong(error) => return Some(error);
        case Means(None) => return None;
        case Means(Some(v)) =>
          stored := Stored(stored, id, arg, v);
          return None;
      }
    }

    method MarkAndParse(arg: Arg, value: Option<string>, negated: bool) returns (r: Option<Error>)
      requires Valid() && FindArg(path[|path| - 1].options, arg.name) == Some(arg)
      modifies `optionMap, `meta, `stored, `history
      ensures Valid() && Follows(MarkAndOccur(env, old(Abs()), arg, value, negated), r, Abs())
    {
      hide Built, Configured, WalksOptions, FindCommand, FindArg, Interpret, ShortTable, ParsedOf;
      ghost var before := Abs();
      OneMoreParsed(optionMap, arg);
      optionMap := optionMap[arg.name := Entry(arg, true)];
      assert Abs() == before.(parsed := before.parsed + {arg.name});
      r := ParseArg(arg, OptionId(|path| - 1, arg.name), value, negated, OptionEvent(|path| - 1, arg, value, negated));
    }

    method ParseLongOption(token: string) returns (r: Option<Error>)
      requires Valid() && StartsWith(token, "--") && |token| > 2
      modifies `optionMap, `meta, `stored, `history
      ensures Valid() && Follows(LongOption(env, old(Abs()), token), r, Abs())
    {
      var rest := token[2..];
      var negated := StartsWith(rest, "no-");
      if negated { rest := rest[3..]; }
      var split := SplitValue(rest);
      if split.name !in optionMap { return Some(UnknownOption(split.name)); }
      r := MarkAndParse(optionMap[split.name].arg, split.value, negated);
    }

    method ParseShortOptionSeq(token: string) returns (r: Option<Error>)
      requires Valid() && StartsWith(token, "-") && |token| > 1
      modifies `optionMap, `meta, `stored, `history
      ensures (r == None ==> Valid()) && Follows(ShortGroup(env, old(Abs()), token), r, Abs())
    {
      hide Valid, Abs, SplitValue, ShortGroup, Letters, Letter, MarkAndOccur, FindArg;
      var split := SplitValue(token[1..]);
      GroupIsItsName(env, Abs(), token);
      if split.value.Some? && |split.name| != 1 { return Some(GroupWithValue(split.name)); }
      var i := 0;
      ghost var whole := Letters(env, Abs(), split.name, split.value);
      while i < |split.name|
        invariant 0 <= i <= |split.name| && Valid()
        invariant whole == Letters(env, Abs(), split.name[i..], split.value)
      {
        var c := split.name[i];
        NextLetter(env, Abs(), split.name, i, split.value);
        LetterOf(c, split.value);
        if c as int >= 128 || c !in shortTable { return Some(UnknownShortOption(c)); }
        r := MarkAndParse(shortTable[c], split.value, false);
        if r.Some? { return r; }
        i := i + 1;
      }
      NoLetterLeft(env, Abs(), split.name[i..], split.value);
      return None;
    }

    // What one letter means is what the short table says.
    lemma LetterOf(c: char, value: Option<string>)
      requires Valid()
      ensures c as int < 128 && c in shortTable ==>
                && FindArg(path[|path| - 1].options, shortTable[c].name) == Some(shortTable[c])
                && Letter(env, Abs(), c, value) == MarkAndOccur(env, Abs(), shortTable[c], value, false)
      ensures !(c as int < 128 && c in shortTable) ==> Letter(env, Abs(), c, value) == Fail(UnknownShortOption(c))
    {
      hide Built, Configured, WalksOptions, FindCommand, FindArg, MarkAndOccur, ShortTable, ParsedOf;
      if c in shortTable { LetterIsFound(env, path[|path| - 1], c); }
    }

    // Gives the options that did not occur their defaults; required ones must have occurred.
    method FinalizeParsedOptions() returns (r: Option<Error>)
      requires Valid()
      modifies `stored
      ensures Valid() && Follows(FinalizeOptions(old(Abs())), r, Abs())
    {
      hide Built, Configured, WalksOptions, FindCommand, FindArg, ShortTable, Defaults, Missing, Given, NamesOf;
      var c, d := path[|path| - 1], |path| - 1;
      var walk := env.visit(c);
      var missing: set<string> := {};
      ghost var parsed, before := ParsedOf(optionMap), stored;
      WalkStarts(env, c, d, parsed, stored, walk);
      for i := 0 to |walk|
        invariant Given(before, stored, Defaults(c, d, parsed), NamesOf(walk[..i]))
        invariant missing == Missing(c, parsed) * NamesOf(walk[..i])
      {
        var option := walk[i];
        WalkStep(before, stored, c, d, parsed, walk, i);
        if !optionMap[option.name].parsed {
          if option.default.Some? && !option.hasMeta {
            stored := stored[OptionId(d, option.name) := [option.default.value]];
          }
          if option.isRequired {
            missing := missing + {option.name};
          }
        }
      }
      assert walk[..|walk|] == walk;
      AllMissing(c, parsed);
      AllGiven(before, stored, c, d, parsed);
      if missing == {} { return None; }
      return Some(MissingOptions(missing));
    }

    method ParsePositionalArg(word: string) returns (r: Option<Error>)
      requires Valid()
      modifies `index, `appending, `meta, `stored, `history
      ensures Valid() && Follows(Positional(env, old(Abs()), word), r, Abs())
    {
      hide Built, Configured, WalksOptions, FindCommand, FindArg, Interpret, ShortTable, ParsedOf;
      var args := path[|path| - 1].positionals;
      if index >= |args| { return Some(TooManyPositionals(word)); }
      var arg, at := args[index], index;
      appending := arg.isAppend;
      if !appending { index := index + 1; }
      r := ParseArg(arg, PositionalId(at), Some(word), false, PositionalEvent(at, arg, word));
    }

    method ParseSubcommand(word: string) returns (r: Option<Error>)
      requires Valid()
      modifies this
      ensures (r == None ==> Valid()) && Follows(Subcommand(old(Abs()), word), r, Abs())
    {
      hide Built, Configured, WalksOptions, FindArg, FindCommand, ShortTable, FinalizeOptions;
      if word !in subcommandMap { return Some(InvalidSubcommand(word)); }
      SubcommandIsBuilt(path[|path| - 1], subcommandMap[word]);
      ghost var before := Abs();
      r := FinalizeParsedOptions();
      if r.Some? { return r; }
      FinalizeAddsNothing(before);
      Descend(subcommandMap[word]);
    }

    // Makes a subcommand the active command.
    method Descend(sub: Command)
      requires WalksOptions(env) && Built(sub) && Configured(sub)
      modifies this
      ensures Valid()
      ensures var s := old(Abs()); Abs() == s.(path := s.path + [sub], parsed := {}, history := s.history + [SubcommandEvent(sub.name)])
    {
      hide Built, Configured, WalksOptions, FindArg, FindCommand, ShortTable, ParsedOf;
      path := path + [sub];
      history := history + [SubcommandEvent(sub.name)];
      PopulateMaps();
    }

    method ParsePositionalSuffix(tokens: seq<string>) returns (r: Option<Error>)
      requires Valid() && path[|path| - 1].positionals != [] && tokens != [] && tokens[0] == "--"
      modifies `index, `appending, `meta, `stored, `history
      ensures Valid() && Follows(PositionalSuffix(env, old(Abs()), tokens, false), r, Abs())
    {
      hide Built, Configured, WalksOptions, FindCommand, FindArg, ShortTable, Positional, ParsedOf;
      var rest, emptyPositional := tokens, false;
      ghost var before := Abs();
      while rest != []
        invariant Valid() && path == old(path)
        invariant PositionalSuffix(env, before, tokens, false) == PositionalSuffix(env, Abs(), rest, emptyPositional)
        decreases |rest|
      {
        var token := rest[0];
        rest := rest[1..];
        if token != "--" {
          r := ParsePositionalArg(token);
          if r.Some? { return r; }
          emptyPositional := false;
          continue;
        }
        if appending || emptyPositional {
          index := index + 1;
          if index >= |path[|path| - 1].positionals| { return Some(SuffixBeyondPositionals); }
        }
        appending := false;
        emptyPositional := true;
      }
      return None;
    }

    method FinalizeParse() returns (r: ParseResult)
      requires Valid() && Inv(env, Abs(), |path| - 1)
      modifies this
      ensures match Finish(old(Abs()))
              case Failure(e) => r == NotParsed(e)
              case Success(s) => r == Parsed && Abs() == s
              case MetaSuccess(s) => r == MetaParsed && Abs() == s
      ensures r == Parsed <==> old(meta) == None && Done(old(Abs())) && Active(old(Abs())).kind == Action
      ensures r == MetaParsed <==> old(meta).Some? || (Done(old(Abs())) && Active(old(Abs())).kind == MetaAction)
      ensures r == NotParsed(NoSubcommand) <==>
                old(meta) == None && Done(old(Abs())) && Active(old(Abs())).kind == RequiresSubcommand
    {
      hide Built, Configured, WalksOptions, FindCommand, FindArg, ShortTable, FinalizeOptions, Inv, ParsedOf, Done;
      FinishMeans(env, Abs());
      if meta.Some? { return MetaParsed; }
      IndexFits(env, Abs());
      ghost var before := Abs();
      var failed := FinalizeParsedOptions();
      if failed.Some? { return NotParsed(failed.value); }
      FinalizeAddsNothing(before);
      var command := path[|path| - 1];
      var args := command.positionals;
      if appending {
        assert index < |args|;
        index := index + 1;
      }
      var unparsed := args[index..];
      if unparsed != [] {
        if unparsed[0].isRequired { return NotParsed(MissingPositional(unparsed[0].name)); }
        LaterAreOptional(command, index);
        assert forall a :: a in unparsed ==> !a.isRequired;
      }
      HasKind(command);
      match command.kind {
        case Action => return Parsed;
        case MetaAction => return MetaParsed;
        case RequiresSubcommand => return NotParsed(NoSubcommand);
        case Invalid => assert false;
      }
    }

    method ParseToken(token: string) returns (r: Option<Error>)
      requires Valid() && token != "--"
      modifies this
      ensures (r == None ==> Valid()) && Follows(Token(env, old(Abs()), token), r, Abs())
    {
      hide Built, Configured, WalksOptions, FindCommand, FindArg, ShortTable, LongOption, ShortGroup, Positional, Subcommand;
      if StartsWith(token, "--") {
        r := ParseLongOption(token);
      } else if StartsWith(token, "-") && |token| > 1 {
        r := ParseShortOptionSeq(token);
      } else {
        var command := path[|path| - 1];
        BuiltOneKind(command);
        assert command.positionals == [] || command.subcommands == [];
        if command.positionals == [] && command.subcommands == [] { return Some(Unexpected(token)); }
        if command.positionals != [] {
          r := ParsePositionalArg(token);
        } else {
          r := ParseSubcommand(token);
        }
      }
    }

    method Parse(tokens: seq<string>) returns (r: ParseResult)
      requires WalksOptions(env) && Abs() == Start(path[0]) && Built(path[0]) && Configured(path[0])
      modifies this
      ensures match CommandLine.Parse(env, old(path[0]), tokens)
              case Failure(e) => r == NotParsed(e)
              case Success(s) => r == Parsed && Abs() == s
              case MetaSuccess(s) => r == MetaParsed && Abs() == s
      ensures var root := old(path[0]);
              var readable, meta := Readable(env, root, tokens), LastMeta(Reading(env, root, tokens));
              var complete, kind := Complete(env, root, tokens), ActiveAt(root, tokens).kind;
              && (r == Parsed <==> readable && meta == None && complete && kind == Action)
              && (r == MetaParsed <==> readable && (meta.Some? || (complete && kind == MetaAction)))
              && (forall e :: r == NotParsed(e) <==>
                    TokenRefused(env, root, tokens, e) || (readable && DueAtEnd(env, root, tokens, e)))
    {
      hide Built, Configured, WalksOptions, FindCommand, FindArg, ShortTable, Inv, Finish, Token, PositionalSuffix,
           Readable, LastMeta, Reading, Complete, ActiveAt, TokenRefused, DueAtEnd, Done;
      ghost var root := path[0];
      OutcomeIs(env, root, tokens);
      PopulateMaps();
      StartOk(env, root);
      var rest := tokens;
      while rest != []
        invariant Valid() && Inv(env, Abs(), |path| - 1)
        invariant Tokens(env, Start(root), tokens) == Tokens(env, Abs(), rest)
        decreases |rest|
      {
        var command := path[|path| - 1];
        if rest[0] == "--" {
          if command.positionals == [] { return NotParsed(NoPositionalsForSuffix); }
          if index >= |command.positionals| { return NotParsed(SuffixAfterAllPositionals); }
          SuffixKeeps(env, Abs(), rest);
          var failed := ParsePositionalSuffix(rest);
          if failed.Some? { return NotParsed(failed.value); }
          break;
        }
        var token := rest[0];
        TokenKeeps(env, Abs(), token);
        rest := rest[1..];
        var failed := ParseToken(token);
        if failed.Some? { return NotParsed(failed.value); }
      }
      r := FinalizeParse();
    }
  }
}
