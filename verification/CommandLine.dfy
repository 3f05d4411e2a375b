/** Command-line arguments (common/command_line.h): commands, what one argument means, and the
    parse as a function of the arguments. The parser object itself is in Parsing.dfy. */
module CommandLine {

  import opened Options

  datatype Kind = Flag | Integer | String | OneOf(values: seq<string>) | MetaActionOnly

  datatype Value = Bool(b: bool) | Int(n: int) | Str(s: string) | Chosen(index: nat)

  datatype Arg = Arg(
    name: string,
    shortName: string,
    kind: Kind,
    default: Option<Value>,
    isRequired: bool,
    isAppend: bool,
    hasMeta: bool)

  datatype CommandKind = Invalid | RequiresSubcommand | Action | MetaAction

  datatype Command = Command(
    name: string,
    options: seq<Arg>,
    positionals: seq<Arg>,
    subcommands: seq<Command>,
    kind: CommandKind)

  datatype Error =
    | NegatedNonFlag(name: string)
    | NegatedWithValue(name: string)
    | InvalidFlagValue(name: string, value: string)
    | InvalidInteger(name: string, value: string)
    | InvalidOneOf(name: string, value: string)
    | ValueRequired(name: string)
    | ValueRefused(name: string)
    | UnknownOption(name: string)
    | GroupWithValue(group: string)
    | UnknownShortOption(c: char)
    | MissingOptions(names: set<string>)
    | TooManyPositionals(arg: string)
    | InvalidSubcommand(arg: string)
    | MissingPositional(name: string)
    | NoSubcommand
    | NoPositionalsForSuffix
    | SuffixAfterAllPositionals
    | SuffixBeyondPositionals
    | Unexpected(arg: string)

  // What the parser depends on but does not decide: how integers are read, and the order in which
  // the map of options is walked.
  datatype Env = Env(integer: string -> Option<int>, visit: Command -> seq<Arg>)

  ghost predicate WalksOptions(env: Env) {
    forall c: Command :: forall a :: a in env.visit(c) <==> a in c.options
  }

  // --- Names ---

  predicate IsAlnum(c: char) {
    'a' <= c <= 'z' || 'A' <= c <= 'Z' || '0' <= c <= '9'
  }

  predicate StartsWith(s: string, prefix: string) {
    prefix <= s
  }

  predicate IsValidName(name: string) {
    && |name| > 1
    && IsAlnum(name[0]) && IsAlnum(name[|name| - 1])
    && (forall i :: 1 <= i < |name| - 1 ==> name[i] == '-' || name[i] == '_' || IsAlnum(name[i]))
    && !StartsWith(name, "no-")
  }

  function NamesOf(args: seq<Arg>): set<string> {
    set a | a in args :: a.name
  }

  predicate DistinctNames(args: seq<Arg>) {
    forall i, j :: 0 <= i < j < |args| ==> args[i].name != args[j].name
  }

  // The builder's rule: a required positional never follows an optional one.
  predicate RequiredFirst(args: seq<Arg>) {
    forall i, j :: 0 <= i < j < |args| && args[j].isRequired ==> args[i].isRequired
  }

  predicate DistinctCommands(commands: seq<Command>) {
    forall i, j :: 0 <= i < j < |commands| ==> commands[i].name != commands[j].name
  }

  // What the builder's checks guarantee of a command and everything below it.
  predicate Built(c: Command)
    decreases c
  {
    && (forall a :: a in c.options ==> IsValidName(a.name))
    && DistinctNames(c.options)
    && (c.positionals == [] || c.subcommands == [])
    && RequiredFirst(c.positionals)
    && DistinctCommands(c.subcommands)
    && (c.kind == RequiresSubcommand ==> c.subcommands != [])
    && (forall sub :: sub in c.subcommands ==> Built(sub))
  }

  // What the parser relies on and the builder leaves to its callers: short names of one ASCII
  // character, an action for every command, and no default on an appending argument.
  predicate Configured(c: Command)
    decreases c
  {
    && (forall a :: a in c.options ==> |a.shortName| <= 1 && forall ch :: ch in a.shortName ==> ch as int < 128)
    && (forall a :: a in c.options && a.isAppend ==> a.default == None)
    && c.kind != Invalid
    && (forall sub :: sub in c.subcommands ==> Configured(sub))
  }

  // --- One argument ---

  datatype Meaning = Means(value: Option<Value>) | Wrong(error: Error)

  function IndexIn(values: seq<string>, s: string): (r: Option<nat>)
    ensures r.None? <==> s !in values
    ensures r.Some? ==> r.value < |values| && values[r.value] == s && s !in values[..r.value]
  {
    if values == [] then None
    else if values[0] == s then Some(0)
    else
      match IndexIn(values[1..], s)
      case None => None
      case Some(i) => assert values[..i + 1] == [values[0]] + values[1..][..i]; Some(i + 1)
  }

  // What one occurrence of an argument stores, if anything.
  function Interpret(env: Env, arg: Arg, value: Option<string>, negated: bool): Meaning {
    if negated then
      if arg.kind != Flag then Wrong(NegatedNonFlag(arg.name))
      else if value.Some? then Wrong(NegatedWithValue(arg.name))
      else Means(Some(Bool(false)))
    else if arg.kind == Flag then
      if value == None || value == Some("true") then Means(Some(Bool(true)))
      else if value == Some("false") then Means(Some(Bool(false)))
      else Wrong(InvalidFlagValue(arg.name, value.value))
    else if value == None then
      if arg.kind == MetaActionOnly then Means(None)
      else if arg.default == None then Wrong(ValueRequired(arg.name))
      else Means(arg.default)
    else
      match arg.kind
      case Integer =>
        (match env.integer(value.value)
         case None => Wrong(InvalidInteger(arg.name, value.value))
         case Some(n) => Means(Some(Int(n))))
      case String => Means(Some(Str(value.value)))
      case OneOf(values) =>
        (match IndexIn(values, value.value)
         case None => Wrong(InvalidOneOf(arg.name, value.value))
         case Some(i) => Means(Some(Chosen(i))))
      case _ => Wrong(ValueRefused(arg.name))
  }

  // --- The state of a parse ---

  // Where an argument's values go: an option of a command on the selected path, or a positional
  // argument of the last command on it.
  datatype ArgId = OptionId(depth: nat, name: string) | PositionalId(index: nat)

  datatype Event =
    | OptionEvent(depth: nat, arg: Arg, value: Option<string>, negated: bool)
    | PositionalEvent(index: nat, arg: Arg, word: string)
    | SubcommandEvent(name: string)

  type Path = p: seq<Command> | p != [] witness [Command("", [], [], [], Action)]

  datatype State = State(
    path: Path,                      // command_ is the last; the others are its parents
    parsed: set<string>,             // the bits of option_map_
    index: nat,                      // positional_arg_index_
    appending: bool,                 // appending_to_positional_arg_
    meta: Option<ArgId>,             // arg_meta_action_
    stored: map<ArgId, seq<Value>>,  // the arguments' storage, as far as it was written
    history: seq<Event>)             // everything that was parsed, in order

  datatype Step = Ok(state: State) | Fail(error: Error)

  datatype Outcome = Success(state: State) | MetaSuccess(state: State) | Failure(error: Error)

  function Start(root: Command): State {
    State([root], {}, 0, false, None, map[], [])
  }

  function Active(s: State): Command {
    s.path[|s.path| - 1]
  }

  function IdOf(e: Event): Option<ArgId> {
    match e
    case OptionEvent(d, a, _, _) => Some(OptionId(d, a.name))
    case PositionalEvent(i, _, _) => Some(PositionalId(i))
    case SubcommandEvent(_) => None
  }

  function MeaningOf(env: Env, e: Event): Meaning {
    match e
    case OptionEvent(_, a, value, negated) => Interpret(env, a, value, negated)
    case PositionalEvent(_, a, word) => Interpret(env, a, Some(word), false)
    case SubcommandEvent(_) => Means(None)
  }

  function Read(stored: map<ArgId, seq<Value>>, id: ArgId): seq<Value> {
    if id in stored then stored[id] else []
  }

  function Stored(stored: map<ArgId, seq<Value>>, id: ArgId, arg: Arg, v: Value): map<ArgId, seq<Value>> {
    stored[id := if arg.isAppend then Read(stored, id) + [v] else [v]]
  }

  // ParseArg, for an occurrence of an option or a positional argument.
  function Occur(env: Env, s: State, e: Event): Step
    requires !e.SubcommandEvent?
  {
    var id := IdOf(e).value;
    match MeaningOf(env, e)
    case Wrong(error) => Fail(error)
    case Means(v) =>
      Ok(s.(meta := if e.arg.hasMeta then Some(id) else s.meta,
            history := s.history + [e],
            stored := if v.Some? then Stored(s.stored, id, e.arg, v.value) else s.stored))
  }

  // --- Options ---

  function FindArg(args: seq<Arg>, name: string): (r: Option<Arg>)
    ensures r.None? <==> name !in NamesOf(args)
    ensures r.Some? ==> r.value in args && r.value.name == name
  {
    if args == [] then None else if args[0].name == name then Some(args[0]) else FindArg(args[1..], name)
  }

  function FindCommand(commands: seq<Command>, name: string): (r: Option<Command>)
    ensures r.None? <==> forall c :: c in commands ==> c.name != name
    ensures r.Some? ==> r.value in commands && r.value.name == name
  {
    if commands == [] then None
    else if commands[0].name == name then Some(commands[0])
    else FindCommand(commands[1..], name)
  }

  // The table of short options: later entries of the walk overwrite earlier ones.
  function ShortTable(args: seq<Arg>): (t: map<char, Arg>)
    ensures forall ch :: ch in t ==> t[ch] in args && t[ch].shortName != "" && t[ch].shortName[0] == ch
  {
    if args == [] then map[]
    else
      var t, last := ShortTable(args[..|args| - 1]), args[|args| - 1];
      if last.shortName == "" then t else t[last.shortName[0] := last]
  }

  function IndexOf(s: string, c: char): (i: nat)
    ensures i <= |s| && (i < |s| ==> s[i] == c) && c !in s[..i]
  {
    if s == [] || s[0] == c then 0
    else
      var i := IndexOf(s[1..], c);
      assert s[..i + 1] == [s[0]] + s[1..][..i];
      i + 1
  }

  datatype Split = Split(name: string, value: Option<string>)

  function SplitValue(s: string): Split {
    var i := IndexOf(s, '=');
    if i < |s| then Split(s[..i], Some(s[i + 1..])) else Split(s, None)
  }

  function MarkAndOccur(env: Env, s: State, arg: Arg, value: Option<string>, negated: bool): Step {
    Occur(env, s.(parsed := s.parsed + {arg.name}), OptionEvent(|s.path| - 1, arg, value, negated))
  }

  function LongOption(env: Env, s: State, token: string): Step
    requires StartsWith(token, "--") && |token| > 2
  {
    var rest := token[2..];
    var negated := StartsWith(rest, "no-");
    var split := SplitValue(if negated then rest[3..] else rest);
    match FindArg(Active(s).options, split.name)
    case None => Fail(UnknownOption(split.name))
    case Some(arg) => MarkAndOccur(env, s, arg, split.value, negated)
  }

  function Letter(env: Env, s: State, c: char, value: Option<string>): Step {
    var table := ShortTable(env.visit(Active(s)));
    if c as int < 128 && c in table then MarkAndOccur(env, s, table[c], value, false)
    else Fail(UnknownShortOption(c))
  }

  function Letters(env: Env, s: State, letters: string, value: Option<string>): Step
    decreases |letters|
  {
    if letters == "" then Ok(s)
    else
      match Letter(env, s, letters[0], value)
      case Fail(e) => Fail(e)
      case Ok(s') => Letters(env, s', letters[1..], value)
  }

  function ShortGroup(env: Env, s: State, token: string): Step
    requires StartsWith(token, "-") && |token| > 1
  {
    var split := SplitValue(token[1..]);
    if split.value.Some? && |split.name| != 1 then Fail(GroupWithValue(split.name))
    else Letters(env, s, split.name, split.value)
  }

  // The options that did not occur and get their default.
  function Defaulted(c: Command, parsed: set<string>): set<string> {
    set a | a in c.options && a.name !in parsed && a.default.Some? && !a.hasMeta :: a.name
  }

  function Missing(c: Command, parsed: set<string>): set<string> {
    set a | a in c.options && a.name !in parsed && a.isRequired :: a.name
  }

  function Defaults(c: Command, depth: nat, parsed: set<string>): map<ArgId, seq<Value>> {
    map id | id in (set n | n in Defaulted(c, parsed) :: OptionId(depth, n)) ::
      var a := FindArg(c.options, id.name);
      if a.Some? && a.value.default.Some? then [a.value.default.value] else []
  }

  function FinalizeOptions(s: State): Step {
    var missing := Missing(Active(s), s.parsed);
    if missing != {} then Fail(MissingOptions(missing))
    else Ok(s.(stored := s.stored + Defaults(Active(s), |s.path| - 1, s.parsed)))
  }

  // --- Positional arguments and subcommands ---

  function Positional(env: Env, s: State, word: string): Step {
    if s.index >= |Active(s).positionals| then Fail(TooManyPositionals(word))
    else
      var arg := Active(s).positionals[s.index];
      Occur(env, s.(appending := arg.isAppend, index := if arg.isAppend then s.index else s.index + 1),
            PositionalEvent(s.index, arg, word))
  }

  function Subcommand(s: State, word: string): Step {
    match FindCommand(Active(s).subcommands, word)
    case None => Fail(InvalidSubcommand(word))
    case Some(sub) =>
      match FinalizeOptions(s)
      case Fail(e) => Fail(e)
      case Ok(s') => Ok(s'.(path := s.path + [sub], parsed := {}, history := s.history + [SubcommandEvent(word)]))
  }

  function PositionalSuffix(env: Env, s: State, tokens: seq<string>, emptyPositional: bool): Step
    decreases |tokens|
  {
    if tokens == [] then Ok(s)
    else if tokens[0] != "--" then
      match Positional(env, s, tokens[0])
      case Fail(e) => Fail(e)
      case Ok(s') => PositionalSuffix(env, s', tokens[1..], false)
    else
      var index := if s.appending || emptyPositional then s.index + 1 else s.index;
      if index > s.index && index >= |Active(s).positionals| then Fail(SuffixBeyondPositionals)
      else PositionalSuffix(env, s.(index := index, appending := false), tokens[1..], true)
  }

  // --- The whole parse ---

  function Token(env: Env, s: State, token: string): Step
    requires token != "--"
  {
    if StartsWith(token, "--") then LongOption(env, s, token)
    else if StartsWith(token, "-") && |token| > 1 then ShortGroup(env, s, token)
    else if Active(s).positionals != [] then Positional(env, s, token)
    else if Active(s).subcommands != [] then Subcommand(s, token)
    else Fail(Unexpected(token))
  }

  function Tokens(env: Env, s: State, tokens: seq<string>): Step
    decreases |tokens|
  {
    if tokens == [] then Ok(s)
    else if tokens[0] == "--" then
      if Active(s).positionals == [] then Fail(NoPositionalsForSuffix)
      else if s.index >= |Active(s).positionals| then Fail(SuffixAfterAllPositionals)
      else PositionalSuffix(env, s, tokens, false)
    else
      match Token(env, s, tokens[0])
      case Fail(e) => Fail(e)
      case Ok(s') => Tokens(env, s', tokens[1..])
  }

  function Finish(s: State): Outcome {
    if s.meta.Some? then MetaSuccess(s)
    else
      match FinalizeOptions(s)
      case Fail(e) => Failure(e)
      case Ok(s') =>
        var s'' := s'.(index := if s.appending then s.index + 1 else s.index);
        if s''.index < |Active(s).positionals| && Active(s).positionals[s''.index].isRequired
        then Failure(MissingPositional(Active(s).positionals[s''.index].name))
        else
          match Active(s).kind
          case Action => Success(s'')
          case MetaAction => MetaSuccess(s'')
          case _ => Failure(NoSubcommand)
  }

  function Parse(env: Env, root: Command, tokens: seq<string>): Outcome {
    match Tokens(env, Start(root), tokens)
    case Fail(e) => Failure(e)
    case Ok(s) => Finish(s)
  }
}
