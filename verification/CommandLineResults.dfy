/** What a successful parse delivers (common/command_line.h:87-164): every option holds what its
    occurrences or its default say, and every positional token is held by exactly one argument. */
module CommandLineResults {
  import opened Options
  import opened CommandLine

  // --- Reading a record of events ---

  predicate Occurs(h: seq<Event>, id: ArgId) {
    exists e :: e in h && IdOf(e) == Some(id)
  }

  // What the events leave in an argument's storage: the last value, or all of them when appending.
  function ValuesOf(env: Env, h: seq<Event>, id: ArgId): seq<Value> {
    if h == [] then []
    else
      var values, e := ValuesOf(env, h[..|h| - 1], id), h[|h| - 1];
      if IdOf(e) == Some(id) && MeaningOf(env, e).Means? && MeaningOf(env, e).value.Some? then
        (if e.arg.isAppend then values + [MeaningOf(env, e).value.value] else [MeaningOf(env, e).value.value])
      else values
  }

  function OptionEvents(h: seq<Event>): seq<Event> {
    if h == [] then []
    else
      var events, e := OptionEvents(h[..|h| - 1]), h[|h| - 1];
      if e.OptionEvent? then events + [e] else events
  }

  function WordsOf(h: seq<Event>): seq<string> {
    if h == [] then []
    else
      var words, e := WordsOf(h[..|h| - 1]), h[|h| - 1];
      match e
      case OptionEvent(_, _, _, _) => words
      case PositionalEvent(_, _, word) => words + [word]
      case SubcommandEvent(name) => words + [name]
  }

  // --- Reading the tokens themselves ---

  predicate IsWord(token: string) {
    !StartsWith(token, "-") || |token| == 1
  }

  // The tokens that are no options: plain words, and after a `--` everything but `--` itself.
  function Words(tokens: seq<string>): seq<string> {
    if tokens == [] then []
    else if tokens[0] == "--" then SuffixWords(tokens)
    else (if IsWord(tokens[0]) then [tokens[0]] else []) + Words(tokens[1..])
  }

  function SuffixWords(tokens: seq<string>): seq<string> {
    if tokens == [] then []
    else (if tokens[0] != "--" then [tokens[0]] else []) + SuffixWords(tokens[1..])
  }

  function SpelledLetters(env: Env, c: Command, depth: nat, letters: string, value: Option<string>): seq<Event> {
    if letters == "" then []
    else
      var table := ShortTable(env.visit(c));
      (if letters[0] in table then [OptionEvent(depth, table[letters[0]], value, false)] else [])
      + SpelledLetters(env, c, depth, letters[1..], value)
  }

  // The options one token spells.
  function SpelledBy(env: Env, c: Command, depth: nat, token: string): seq<Event> {
    if IsWord(token) then []
    else if StartsWith(token, "--") then
      var rest := token[2..];
      var negated := StartsWith(rest, "no-");
      var split := SplitValue(if negated then rest[3..] else rest);
      match FindArg(c.options, split.name)
      case None => []
      case Some(arg) => [OptionEvent(depth, arg, split.value, negated)]
    else
      var split := SplitValue(token[1..]);
      SpelledLetters(env, c, depth, split.name, split.value)
  }

  // The command that is active after a token.
  function Selected(c: Command, token: string): Option<Command> {
    if IsWord(token) && c.positionals == [] then FindCommand(c.subcommands, token) else None
  }

  // The options spelled on the command line, each with the command it belongs to.
  function Spelled(env: Env, c: Command, depth: nat, tokens: seq<string>): seq<Event>
    decreases |tokens|
  {
    if tokens == [] || tokens[0] == "--" then []
    else
      SpelledBy(env, c, depth, tokens[0]) +
      match Selected(c, tokens[0])
      case None => Spelled(env, c, depth, tokens[1..])
      case Some(sub) => Spelled(env, sub, depth + 1, tokens[1..])
  }

  // --- Invariants ---

  ghost predicate PathOk(path: Path) {
    && (forall c :: c in path ==> Built(c) && Configured(c))
    && (forall i :: 0 <= i < |path| - 1 ==> path[i].positionals == [])
  }

  function Held(env: Env, h: seq<Event>, d: nat, o: Arg, finished: bool): seq<Value> {
    var id := OptionId(d, o.name);
    if finished && !Occurs(h, id) && o.default.Some? && !o.hasMeta then [o.default.value] else ValuesOf(env, h, id)
  }

  // The options of the first `done` commands on the path are finished: the required ones occurred
  // and the others have their defaults.
  ghost predicate OptionsOk(env: Env, s: State, done: nat) {
    && (forall d: nat, o :: d < |s.path| && o in s.path[d].options ==>
          Read(s.stored, OptionId(d, o.name)) == Held(env, s.history, d, o, d < done))
    && (forall d: nat, o :: d < |s.path| && d < done && o in s.path[d].options && o.isRequired ==>
          Occurs(s.history, OptionId(d, o.name)))
    && (forall n :: n in s.parsed <==> Occurs(s.history, OptionId(|s.path| - 1, n)))
    && (forall e :: e in s.history && e.OptionEvent? ==> e.depth < |s.path| && e.arg in s.path[e.depth].options)
    && (forall id :: id in s.stored && id.OptionId? ==> id.depth < |s.path|)
  }

  ghost predicate PositionalsOk(env: Env, s: State) {
    && s.index <= |Active(s).positionals|
    && (s.appending ==> s.index < |Active(s).positionals| && Active(s).positionals[s.index].isAppend)
    && (forall i: nat :: Read(s.stored, PositionalId(i)) == ValuesOf(env, s.history, PositionalId(i)))
    && (forall e :: e in s.history && e.PositionalEvent? ==>
          && e.index < |Active(s).positionals| && e.arg == Active(s).positionals[e.index]
          && (e.index < s.index || (e.index == s.index && s.appending))
          && MeaningOf(env, e).Means?)
    && Ordered(s.history)
  }

  // Positional arguments are met in order, one that does not append only once.
  predicate Ordered(h: seq<Event>) {
    forall i, j :: 0 <= i < j < |h| && h[i].PositionalEvent? && h[j].PositionalEvent? ==>
      h[i].index < h[j].index || (h[i].index == h[j].index && h[i].arg.isAppend)
  }

  ghost predicate MetaOk(s: State) {
    s.meta.Some? <==> exists e :: e in s.history && !e.SubcommandEvent? && e.arg.hasMeta
  }

  // The names of the selected subcommands, and the words of the positional arguments.
  function PathNames(path: Path): seq<string> {
    seq(|path| - 1, i requires 0 <= i < |path| - 1 => path[i + 1].name)
  }

  function PositionalWords(h: seq<Event>): seq<string> {
    if h == [] then []
    else
      var words, e := PositionalWords(h[..|h| - 1]), h[|h| - 1];
      if e.PositionalEvent? then words + [e.word] else words
  }

  // Subcommands come before positional arguments.
  ghost predicate WordsOk(s: State) {
    && WordsOf(s.history) == PathNames(s.path) + PositionalWords(s.history)
    && (PositionalWords(s.history) != [] ==> Active(s).positionals != [])
  }

  ghost predicate Inv(env: Env, s: State, done: nat) {
    PathOk(s.path) && OptionsOk(env, s, done) && PositionalsOk(env, s) && MetaOk(s) && WordsOk(s)
  }

  lemma StartOk(env: Env, root: Command)
    requires Built(root) && Configured(root)
    ensures Inv(env, Start(root), 0)
  {}

  // --- One event ---

  lemma OneMore(env: Env, h: seq<Event>, e: Event, id: ArgId)
    ensures Occurs(h + [e], id) <==> Occurs(h, id) || IdOf(e) == Some(id)
    ensures IdOf(e) != Some(id) ==> ValuesOf(env, h + [e], id) == ValuesOf(env, h, id)
  {}

  // Storage and events agree on an argument before and after it occurs; others keep their values.
  lemma EventStored(env: Env, s: State, e: Event, id: ArgId)
    requires !e.SubcommandEvent? && Occur(env, s, e).Ok?
    ensures var s' := Occur(env, s, e).state;
            && (IdOf(e) != Some(id) ==> Read(s'.stored, id) == Read(s.stored, id))
            && (IdOf(e) == Some(id) && Read(s.stored, id) == ValuesOf(env, s.history, id) ==>
                  Read(s'.stored, id) == ValuesOf(env, s'.history, id))
  {}

  lemma WordsMore(s: State, s': State, e: Event)
    requires WordsOk(s) && s'.history == s.history + [e]
    ensures !e.SubcommandEvent? && s'.path == s.path && (e.PositionalEvent? ==> Active(s).positionals != []) ==> WordsOk(s')
    ensures e.SubcommandEvent? ==>
              && WordsOf(s'.history) == PathNames(s.path) + PositionalWords(s.history) + [e.name]
              && PositionalWords(s'.history) == PositionalWords(s.history)
  {
    WordOfOne(s.history, e);
    hide WordsOf, PositionalWords;
    var names, words := PathNames(s.path), PositionalWords(s.history);
    if e.PositionalEvent? { assert names + words + [e.word] == names + (words + [e.word]); }
  }

  lemma WordOfOne(h: seq<Event>, e: Event)
    ensures WordsOf(h + [e]) == WordsOf(h) + if e.OptionEvent? then [] else if e.PositionalEvent? then [e.word] else [e.name]
    ensures PositionalWords(h + [e]) == PositionalWords(h) + if e.PositionalEvent? then [e.word] else []
  {
    assert (h + [e])[..|h|] == h;
  }

  // --- The steps keep the invariant ---

  lemma OptionKeepsOptions(env: Env, s: State, arg: Arg, value: Option<string>, negated: bool)
    requires OptionsOk(env, s, |s.path| - 1) && arg in Active(s).options
    requires MarkAndOccur(env, s, arg, value, negated).Ok?
    ensures OptionsOk(env, MarkAndOccur(env, s, arg, value, negated).state, |s.path| - 1)
  {
    hide ValuesOf, Occurs;
    var e := OptionEvent(|s.path| - 1, arg, value, negated);
    var s0 := s.(parsed := s.parsed + {arg.name});
    var s' := Occur(env, s0, e).state;
    forall d: nat, o | d < |s.path| && o in s.path[d].options
      ensures Read(s'.stored, OptionId(d, o.name)) == Held(env, s'.history, d, o, d < |s.path| - 1)
      ensures d < |s.path| - 1 && o.isRequired ==> Occurs(s'.history, OptionId(d, o.name))
    {
      OneMore(env, s.history, e, OptionId(d, o.name));
      EventStored(env, s0, e, OptionId(d, o.name));
    }
    forall n ensures n in s'.parsed <==> Occurs(s'.history, OptionId(|s.path| - 1, n)) {
      OneMore(env, s.history, e, OptionId(|s.path| - 1, n));
    }
  }

  lemma OptionKeepsPositionals(env: Env, s: State, arg: Arg, value: Option<string>, negated: bool)
    requires PositionalsOk(env, s) && MarkAndOccur(env, s, arg, value, negated).Ok?
    ensures PositionalsOk(env, MarkAndOccur(env, s, arg, value, negated).state)
  {
    hide ValuesOf;
    var e := OptionEvent(|s.path| - 1, arg, value, negated);
    var s0 := s.(parsed := s.parsed + {arg.name});
    forall i: nat ensures
      Read(Occur(env, s0, e).state.stored, PositionalId(i)) == ValuesOf(env, s.history + [e], PositionalId(i))
    {
      OneMore(env, s.history, e, PositionalId(i));
      EventStored(env, s0, e, PositionalId(i));
    }
  }

  lemma OptionKeepsInv(env: Env, s: State, arg: Arg, value: Option<string>, negated: bool)
    requires Inv(env, s, |s.path| - 1) && arg in Active(s).options
    requires MarkAndOccur(env, s, arg, value, negated).Ok?
    ensures var s' := MarkAndOccur(env, s, arg, value, negated).state;
            && Inv(env, s', |s'.path| - 1) && s'.path == s.path
            && s'.history == s.history + [OptionEvent(|s.path| - 1, arg, value, negated)]
  {
    hide PathOk, OptionsOk, PositionalsOk, MetaOk, WordsOk;
    WordsMore(s, MarkAndOccur(env, s, arg, value, negated).state, OptionEvent(|s.path| - 1, arg, value, negated));
    OptionKeepsOptions(env, s, arg, value, negated);
    OptionKeepsPositionals(env, s, arg, value, negated);
    MarkKeepsMeta(env, s, arg, value, negated);
  }

  lemma MarkKeepsMeta(env: Env, s: State, arg: Arg, value: Option<string>, negated: bool)
    requires MetaOk(s) && MarkAndOccur(env, s, arg, value, negated).Ok?
    ensures MetaOk(MarkAndOccur(env, s, arg, value, negated).state)
  {}

  lemma PositionalKeepsOptions(env: Env, s: State, word: string)
    requires OptionsOk(env, s, |s.path| - 1) && Positional(env, s, word).Ok?
    ensures OptionsOk(env, Positional(env, s, word).state, |s.path| - 1)
  {
    hide ValuesOf, Occurs, OptionsOk;
    var arg := Active(s).positionals[s.index];
    var e := PositionalEvent(s.index, arg, word);
    var s0 := s.(appending := arg.isAppend, index := if arg.isAppend then s.index else s.index + 1);
    forall d: nat, n ensures
      && Occurs(s.history + [e], OptionId(d, n)) == Occurs(s.history, OptionId(d, n))
      && ValuesOf(env, s.history + [e], OptionId(d, n)) == ValuesOf(env, s.history, OptionId(d, n))
      && Read(Occur(env, s0, e).state.stored, OptionId(d, n)) == Read(s.stored, OptionId(d, n))
    {
      OneMore(env, s.history, e, OptionId(d, n));
      EventStored(env, s0, e, OptionId(d, n));
    }
    SameOptions(env, s, Positional(env, s, word).state);
  }

  lemma SameOptions(env: Env, s: State, s': State)
    requires OptionsOk(env, s, |s.path| - 1) && s'.path == s.path && s'.parsed == s.parsed
    requires forall e :: e in s'.history && e.OptionEvent? ==> e in s.history
    requires forall id :: id in s'.stored && id.OptionId? ==> id in s.stored
    requires forall d: nat, n ::
      && Occurs(s'.history, OptionId(d, n)) == Occurs(s.history, OptionId(d, n))
      && ValuesOf(env, s'.history, OptionId(d, n)) == ValuesOf(env, s.history, OptionId(d, n))
      && Read(s'.stored, OptionId(d, n)) == Read(s.stored, OptionId(d, n))
    ensures OptionsOk(env, s', |s.path| - 1)
  {
    hide ValuesOf, Occurs;
  }

  lemma PositionalKeepsPositionals(env: Env, s: State, word: string)
    requires PositionalsOk(env, s) && Positional(env, s, word).Ok?
    ensures PositionalsOk(env, Positional(env, s, word).state)
  {
    hide ValuesOf;
    var arg := Active(s).positionals[s.index];
    var e := PositionalEvent(s.index, arg, word);
    var s0 := s.(appending := arg.isAppend, index := if arg.isAppend then s.index else s.index + 1);
    forall i: nat ensures
      Read(Occur(env, s0, e).state.stored, PositionalId(i)) == ValuesOf(env, s.history + [e], PositionalId(i))
    {
      OneMore(env, s.history, e, PositionalId(i));
      EventStored(env, s0, e, PositionalId(i));
    }
    OrderedMore(s, e);
  }

  lemma OrderedMore(s: State, e: Event)
    requires e.PositionalEvent? && Ordered(s.history) && e.index == s.index
    requires forall x :: x in s.history && x.PositionalEvent? ==>
               x.index < s.index || (x.index == s.index && s.appending && x.arg.isAppend)
    ensures Ordered(s.history + [e])
  {}

  lemma PositionalKeepsInv(env: Env, s: State, word: string)
    requires Inv(env, s, |s.path| - 1) && Positional(env, s, word).Ok?
    ensures var s' := Positional(env, s, word).state;
            && Inv(env, s', |s'.path| - 1) && s'.path == s.path && s.index < |Active(s).positionals|
            && s'.history == s.history + [PositionalEvent(s.index, Active(s).positionals[s.index], word)]
            && s'.index >= s.index
  {
    hide PathOk, OptionsOk, PositionalsOk, WordsOk;
    WordsMore(s, Positional(env, s, word).state, PositionalEvent(s.index, Active(s).positionals[s.index], word));
    PositionalKeepsOptions(env, s, word);
    PositionalKeepsPositionals(env, s, word);
  }

  lemma FinalizeKeepsInv(env: Env, s: State)
    requires Inv(env, s, |s.path| - 1) && FinalizeOptions(s).Ok?
    ensures Inv(env, FinalizeOptions(s).state, |s.path|)
  {
    hide Inv, ValuesOf, FinalizeOptions;
    Take(env, s, |s.path| - 1);
    FinalizeKeepsOptions(env, s);
    FinalizeKeepsRest(env, s);
    Assemble(env, FinalizeOptions(s).state, |s.path|);
  }

  lemma FinalizeKeepsRest(env: Env, s: State)
    requires PathOk(s.path) && OptionsOk(env, s, |s.path| - 1) && PositionalsOk(env, s) && MetaOk(s) && WordsOk(s)
    requires FinalizeOptions(s).Ok?
    ensures var s' := FinalizeOptions(s).state; PathOk(s'.path) && PositionalsOk(env, s') && MetaOk(s') && WordsOk(s')
  {
    hide ValuesOf, OptionsOk, PathOk, Defaults, WordsOf, PositionalWords;
    FinalizeKeepsOptions(env, s);
  }

  lemma DefaultOf(c: Command, d: nat, parsed: set<string>, o: Arg)
    requires DistinctNames(c.options) && o in c.options
    ensures OptionId(d, o.name) in Defaults(c, d, parsed) <==> o.name !in parsed && o.default.Some? && !o.hasMeta
    ensures OptionId(d, o.name) in Defaults(c, d, parsed) ==> Defaults(c, d, parsed)[OptionId(d, o.name)] == [o.default.value]
  {}

  lemma OnlyThisDepth(c: Command, d: nat, parsed: set<string>, id: ArgId)
    requires id in Defaults(c, d, parsed)
    ensures id.OptionId? && id.depth == d
  {}

  lemma FinalizeKeepsOptions(env: Env, s: State)
    requires OptionsOk(env, s, |s.path| - 1) && PathOk(s.path) && FinalizeOptions(s).Ok?
    ensures OptionsOk(env, FinalizeOptions(s).state, |s.path|)
    ensures forall i: nat :: Read(FinalizeOptions(s).state.stored, PositionalId(i)) == Read(s.stored, PositionalId(i))
  {
    hide ValuesOf, Occurs, Configured, Defaults;
    var c, d := Active(s), |s.path| - 1;
    var s' := FinalizeOptions(s).state;
    assert c in s.path && DistinctNames(c.options);
    forall id | id in Defaults(c, d, s.parsed) ensures id.OptionId? && id.depth == d {
      OnlyThisDepth(c, d, s.parsed, id);
    }
    forall o | o in c.options
      ensures Read(s'.stored, OptionId(d, o.name)) == Held(env, s.history, d, o, true)
      ensures o.isRequired ==> Occurs(s.history, OptionId(d, o.name))
    {
      DefaultOf(c, d, s.parsed, o);
      assert o.isRequired ==> o.name !in Missing(c, s.parsed);
    }
  }

  lemma DescendKeepsInv(env: Env, s: State, sub: Command)
    requires Inv(env, s, |s.path|) && sub in Active(s).subcommands
    ensures Inv(env, s.(path := s.path + [sub], parsed := {}, history := s.history + [SubcommandEvent(sub.name)]), |s.path|)
  {
    hide Inv;
    var s' := s.(path := s.path + [sub], parsed := {}, history := s.history + [SubcommandEvent(sub.name)]);
    DescendPath(env, s, sub);
    Take(env, s, |s.path|);
    DescendOptions(env, s, sub);
    DescendRest(env, s, sub);
    Assemble(env, s', |s.path|);
  }

  lemma Take(env: Env, s: State, done: nat)
    requires Inv(env, s, done)
    ensures PathOk(s.path) && OptionsOk(env, s, done) && PositionalsOk(env, s) && MetaOk(s) && WordsOk(s)
  {}

  lemma Assemble(env: Env, s: State, done: nat)
    requires PathOk(s.path) && OptionsOk(env, s, done) && PositionalsOk(env, s) && MetaOk(s) && WordsOk(s)
    ensures Inv(env, s, done)
  {}

  lemma DescendPath(env: Env, s: State, sub: Command)
    requires Inv(env, s, |s.path|) && sub in Active(s).subcommands
    ensures PathOk(s.path + [sub]) && Active(s).positionals == []
  {
    hide OptionsOk, PositionalsOk, MetaOk;
    assert Active(s) in s.path && Built(Active(s)) && Configured(Active(s));
    var path := s.path + [sub];
    forall i | 0 <= i < |path| - 1 ensures path[i].positionals == [] {
      assert path[i] == s.path[i];
    }
  }

  lemma DescendOptions(env: Env, s: State, sub: Command)
    requires OptionsOk(env, s, |s.path|)
    ensures OptionsOk(env, s.(path := s.path + [sub], parsed := {}, history := s.history + [SubcommandEvent(sub.name)]), |s.path|)
  {
    hide ValuesOf;
    var e := SubcommandEvent(sub.name);
    var path := s.path + [sub];
    forall d: nat, n ensures
      && Occurs(s.history + [e], OptionId(d, n)) == Occurs(s.history, OptionId(d, n))
      && ValuesOf(env, s.history + [e], OptionId(d, n)) == ValuesOf(env, s.history, OptionId(d, n))
    {
      OneMore(env, s.history, e, OptionId(d, n));
    }
    forall n ensures !Occurs(s.history, OptionId(|s.path|, n)) && ValuesOf(env, s.history, OptionId(|s.path|, n)) == [] {
      NothingWithout(env, s.history, OptionId(|s.path|, n));
    }
    forall d: nat, o | d < |path| && o in path[d].options
      ensures d < |s.path| ==> o in s.path[d].options {}
  }

  lemma {:induction false} NothingWithout(env: Env, h: seq<Event>, id: ArgId)
    ensures !Occurs(h, id) ==> ValuesOf(env, h, id) == []
  {
    if h == [] {
    } else {
      NothingWithout(env, h[..|h| - 1], id);
      OneMore(env, h[..|h| - 1], h[|h| - 1], id);
      assert h == h[..|h| - 1] + [h[|h| - 1]];
    }
  }

  lemma DescendRest(env: Env, s: State, sub: Command)
    requires Inv(env, s, |s.path|) && Active(s).positionals == []
    ensures var s' := s.(path := s.path + [sub], parsed := {}, history := s.history + [SubcommandEvent(sub.name)]);
            PositionalsOk(env, s') && MetaOk(s') && WordsOk(s')
  {
    hide PositionalsOk, MetaOk, WordsOk, PathOk, OptionsOk;
    DescendPositionals(env, s, sub);
    DescendWords(s, sub);
  }

  lemma DescendPositionals(env: Env, s: State, sub: Command)
    requires PositionalsOk(env, s) && MetaOk(s) && Active(s).positionals == []
    ensures var s' := s.(path := s.path + [sub], parsed := {}, history := s.history + [SubcommandEvent(sub.name)]);
            PositionalsOk(env, s') && MetaOk(s')
  {}

  lemma DescendWords(s: State, sub: Command)
    requires WordsOk(s) && Active(s).positionals == []
    ensures WordsOk(s.(path := s.path + [sub], parsed := {}, history := s.history + [SubcommandEvent(sub.name)]))
  {}

  lemma SubcommandKeepsInv(env: Env, s: State, word: string)
    requires Inv(env, s, |s.path| - 1) && Subcommand(s, word).Ok?
    ensures var s' := Subcommand(s, word).state; var sub := FindCommand(Active(s).subcommands, word);
            && Inv(env, s', |s'.path| - 1) && sub.Some? && Active(s') == sub.value && |s'.path| == |s.path| + 1
            && s'.history == s.history + [SubcommandEvent(word)]
  {
    hide Inv;
    FinalizeKeepsInv(env, s);
    DescendKeepsInv(env, FinalizeOptions(s).state, FindCommand(Active(s).subcommands, word).value);
  }

  // --- One token ---

  // What a step adds: the words and the options it read.
  ghost predicate Adds(s: State, s': State, words: seq<string>, options: seq<Event>) {
    && WordsOf(s'.history) == WordsOf(s.history) + words
    && OptionEvents(s'.history) == OptionEvents(s.history) + options
  }

  lemma AddsOne(s: State, s': State, e: Event)
    requires s'.history == s.history + [e]
    ensures e.OptionEvent? ==> Adds(s, s', [], [e])
    ensures e.PositionalEvent? ==> Adds(s, s', [e.word], [])
    ensures e.SubcommandEvent? ==> Adds(s, s', [e.name], [])
  {}

  lemma AddsNothing(s: State, s': State)
    requires s'.history == s.history
    ensures Adds(s, s', [], [])
  {}

  lemma AddsMore(a: State, b: State, c: State, words: seq<string>, words': seq<string>, options: seq<Event>, options': seq<Event>)
    requires Adds(a, b, words, options) && Adds(b, c, words', options')
    ensures Adds(a, c, words + words', options + options')
  {}

  lemma NothingBefore<T>(w: seq<T>)
    ensures [] + w == w
  {}

  lemma {:induction false} LettersKeepInv(env: Env, s: State, letters: string, value: Option<string>)
    requires WalksOptions(env) && Inv(env, s, |s.path| - 1) && Letters(env, s, letters, value).Ok?
    ensures var s' := Letters(env, s, letters, value).state;
            && Inv(env, s', |s'.path| - 1) && s'.path == s.path
            && Adds(s, s', [], SpelledLetters(env, Active(s), |s.path| - 1, letters, value))
    decreases |letters|
  {
    hide Inv, MarkAndOccur, Adds, ShortTable;
    if letters == "" {
      AddsNothing(s, s);
    } else {
      var c := Active(s);
      var arg := ShortTable(env.visit(c))[letters[0]];
      LetterIsOption(env, c, letters[0]);
      OptionKeepsInv(env, s, arg, value, false);
      var a := Letter(env, s, letters[0], value).state;
      var e := OptionEvent(|s.path| - 1, arg, value, false);
      AddsOne(s, a, e);
      LettersKeepInv(env, a, letters[1..], value);
      NothingBefore<string>([]);
      AddsMore(s, a, Letters(env, s, letters, value).state, [], [],
               [e], SpelledLetters(env, c, |s.path| - 1, letters[1..], value));
    }
  }

  lemma LetterIsOption(env: Env, c: Command, letter: char)
    requires WalksOptions(env) && letter in ShortTable(env.visit(c))
    ensures ShortTable(env.visit(c))[letter] in c.options
  {}

  lemma TokenKeepsInv(env: Env, s: State, token: string)
    requires WalksOptions(env) && Inv(env, s, |s.path| - 1) && token != "--" && Token(env, s, token).Ok?
    ensures var s' := Token(env, s, token).state;
            && Inv(env, s', |s'.path| - 1)
            && Adds(s, s', if IsWord(token) then [token] else [], SpelledBy(env, Active(s), |s.path| - 1, token))
            && match Selected(Active(s), token)
               case None => s'.path == s.path
               case Some(sub) => Active(s') == sub && |s'.path| == |s.path| + 1
  {
    hide Inv, MarkAndOccur, Adds, Letters, Positional, Subcommand, SpelledLetters, ShortTable;
    var s' := Token(env, s, token).state;
    if StartsWith(token, "--") {
      LongNeedsDash(token);
      LongKeepsInv(env, s, token);
    } else if StartsWith(token, "-") && |token| > 1 {
      var split := SplitValue(token[1..]);
      LettersKeepInv(env, s, split.name, split.value);
    } else if Active(s).positionals != [] {
      PositionalKeepsInv(env, s, token);
      AddsOne(s, s', PositionalEvent(s.index, Active(s).positionals[s.index], token));
    } else {
      SubcommandKeepsInv(env, s, token);
      AddsOne(s, s', SubcommandEvent(token));
    }
  }

  lemma LongNeedsDash(token: string)
    requires StartsWith(token, "--")
    ensures !IsWord(token)
  {}

  lemma LongKeepsInv(env: Env, s: State, token: string)
    requires Inv(env, s, |s.path| - 1) && StartsWith(token, "--") && |token| > 2 && LongOption(env, s, token).Ok?
    ensures var s' := LongOption(env, s, token).state;
            && Inv(env, s', |s'.path| - 1) && s'.path == s.path
            && Adds(s, s', [], SpelledBy(env, Active(s), |s.path| - 1, token))
  {
    hide Inv, MarkAndOccur, Adds, SplitValue, SpelledLetters;
    LongNeedsDash(token);
    var rest := token[2..];
    var negated := StartsWith(rest, "no-");
    var split := SplitValue(if negated then rest[3..] else rest);
    var arg := FindArg(Active(s).options, split.name).value;
    OptionKeepsInv(env, s, arg, split.value, negated);
    AddsOne(s, LongOption(env, s, token).state, OptionEvent(|s.path| - 1, arg, split.value, negated));
  }

  lemma SkipKeepsInv(env: Env, s: State, index: nat)
    requires Inv(env, s, |s.path| - 1) && s.index <= index <= |Active(s).positionals|
    requires s.appending ==> s.index < index
    ensures Inv(env, s.(index := index, appending := false), |s.path| - 1)
  {
    hide ValuesOf, Occurs;
  }

  lemma {:induction false} SuffixKeepsInv(env: Env, s: State, tokens: seq<string>, empty: bool)
    requires Inv(env, s, |s.path| - 1) && PositionalSuffix(env, s, tokens, empty).Ok?
    ensures var s' := PositionalSuffix(env, s, tokens, empty).state;
            && Inv(env, s', |s'.path| - 1) && s'.path == s.path && s'.index >= s.index
            && Adds(s, s', SuffixWords(tokens), [])
    decreases |tokens|
  {
    hide Inv, Adds, Positional;
    var s' := PositionalSuffix(env, s, tokens, empty).state;
    if tokens == [] {
      AddsNothing(s, s);
    } else if tokens[0] != "--" {
      var a := Positional(env, s, tokens[0]).state;
      PositionalKeepsInv(env, s, tokens[0]);
      AddsOne(s, a, PositionalEvent(s.index, Active(s).positionals[s.index], tokens[0]));
      SuffixKeepsInv(env, a, tokens[1..], false);
      NothingBefore<Event>([]);
      AddsMore(s, a, s', [tokens[0]], SuffixWords(tokens[1..]), [], []);
    } else {
      var index := if s.appending || empty then s.index + 1 else s.index;
      var a := s.(index := index, appending := false);
      IndexFits(env, s);
      SkipKeepsInv(env, s, index);
      AddsNothing(s, a);
      SuffixKeepsInv(env, a, tokens[1..], true);
      NothingBefore<Event>([]);
      NothingBefore(SuffixWords(tokens[1..]));
      AddsMore(s, a, s', [], SuffixWords(tokens[1..]), [], []);
    }
  }

  lemma IndexFits(env: Env, s: State)
    requires Inv(env, s, |s.path| - 1)
    ensures s.index <= |Active(s).positionals|
    ensures s.appending ==> s.index < |Active(s).positionals|
  {}

  lemma {:induction false} TokensKeepInv(env: Env, s: State, tokens: seq<string>)
    requires WalksOptions(env) && Inv(env, s, |s.path| - 1) && Tokens(env, s, tokens).Ok?
    ensures var s' := Tokens(env, s, tokens).state;
            && Inv(env, s', |s'.path| - 1)
            && Adds(s, s', Words(tokens), Spelled(env, Active(s), |s.path| - 1, tokens))
    decreases |tokens|
  {
    hide Inv, Adds, Token, SpelledBy, Selected, PositionalSuffix, WalksOptions, IsWord, SuffixWords;
    var s' := Tokens(env, s, tokens).state;
    if tokens == [] {
      AddsNothing(s, s);
    } else if tokens[0] == "--" {
      SuffixKeepsInv(env, s, tokens, false);
    } else {
      var a := Token(env, s, tokens[0]).state;
      TokenKeepsInv(env, s, tokens[0]);
      TokensKeepInv(env, a, tokens[1..]);
      AddsMore(s, a, s', if IsWord(tokens[0]) then [tokens[0]] else [], Words(tokens[1..]),
               SpelledBy(env, Active(s), |s.path| - 1, tokens[0]), Spelled(env, Active(a), |a.path| - 1, tokens[1..]));
    }
  }

  // --- The results ---

  lemma {:induction false} OptionsDecide(env: Env, h: seq<Event>, d: nat, n: string)
    ensures Occurs(h, OptionId(d, n)) <==> Occurs(OptionEvents(h), OptionId(d, n))
    ensures ValuesOf(env, h, OptionId(d, n)) == ValuesOf(env, OptionEvents(h), OptionId(d, n))
  {
    if h == [] {
    } else {
      var before, e := h[..|h| - 1], h[|h| - 1];
      var id := OptionId(d, n);
      assert h == before + [e];
      OptionsDecide(env, before, d, n);
      OneMore(env, before, e, id);
      OneMore(env, OptionEvents(before), e, id);
      assert (OptionEvents(before) + [e])[..|OptionEvents(before)|] == OptionEvents(before);
    }
  }

  // The record a parse ends with is what the tokens spell.
  lemma ParseReads(env: Env, root: Command, tokens: seq<string>)
    requires WalksOptions(env) && Built(root) && Configured(root) && Tokens(env, Start(root), tokens).Ok?
    ensures var s := Tokens(env, Start(root), tokens).state;
            && Inv(env, s, |s.path| - 1)
            && OptionEvents(s.history) == Spelled(env, root, 0, tokens) && WordsOf(s.history) == Words(tokens)
  {
    hide Inv, Tokens, Spelled, Words, Built, Configured;
    StartOk(env, root);
    TokensKeepInv(env, Start(root), tokens);
  }

  // After a success every option of every command on the selected path holds what its spelled
  // occurrences say, or its default when there is none; the required ones were spelled, and no
  // meta action was.
  lemma OptionsHoldOccurrences(env: Env, root: Command, tokens: seq<string>, d: nat, o: Arg)
    requires WalksOptions(env) && Built(root) && Configured(root) && Parse(env, root, tokens).Success?
    requires d < |Parse(env, root, tokens).state.path| && o in Parse(env, root, tokens).state.path[d].options
    ensures var s := Parse(env, root, tokens).state; var h := Spelled(env, root, 0, tokens); var id := OptionId(d, o.name);
            && Read(s.stored, id) ==
                 (if Occurs(h, id) then ValuesOf(env, h, id)
                  else if o.default.Some? && !o.hasMeta then [o.default.value] else [])
            && (o.isRequired ==> Occurs(h, id))
    ensures forall e :: e in Spelled(env, root, 0, tokens) ==> e.OptionEvent? && !e.arg.hasMeta
  {
    hide Inv, Tokens, Spelled, Words, FinalizeOptions, ValuesOf, Occurs;
    ParseReads(env, root, tokens);
    var s := Tokens(env, Start(root), tokens).state;
    FinalizeKeepsInv(env, s);
    var done := FinalizeOptions(s).state;
    FinalizeAddsNothing(s);
    HeldAtEnd(env, done, d, o);
    OptionsDecide(env, s.history, d, o.name);
    NothingWithout(env, s.history, OptionId(d, o.name));
    NoMeta(env, s);
  }

  lemma FinalizeAddsNothing(s: State)
    requires FinalizeOptions(s).Ok?
    ensures FinalizeOptions(s).state.(stored := s.stored) == s
  {}

  lemma HeldAtEnd(env: Env, s: State, d: nat, o: Arg)
    requires Inv(env, s, |s.path|) && d < |s.path| && o in s.path[d].options
    ensures Read(s.stored, OptionId(d, o.name)) == Held(env, s.history, d, o, true)
    ensures o.isRequired ==> Occurs(s.history, OptionId(d, o.name))
  {}

  lemma {:induction false} OptionEventsAreEvents(h: seq<Event>)
    ensures forall e :: e in OptionEvents(h) ==> e in h && e.OptionEvent?
  {
    if h == [] {
    } else {
      OptionEventsAreEvents(h[..|h| - 1]);
    }
  }

  lemma NoMeta(env: Env, s: State)
    requires Inv(env, s, |s.path| - 1) && s.meta == None
    ensures forall e :: e in OptionEvents(s.history) ==> e.OptionEvent? && !e.arg.hasMeta
  {
    OptionEventsAreEvents(s.history);
  }

  // An option that does not append holds the value of its last occurrence.
  lemma {:induction false} LastWins(env: Env, h: seq<Event>, i: nat)
    requires i < |h| && IdOf(h[i]).Some? && !h[i].arg.isAppend
    requires MeaningOf(env, h[i]).Means? && MeaningOf(env, h[i]).value.Some?
    requires forall j :: i < j < |h| ==> IdOf(h[j]) != IdOf(h[i])
    ensures ValuesOf(env, h, IdOf(h[i]).value) == [MeaningOf(env, h[i]).value.value]
  {
    if i == |h| - 1 {
    } else {
      assert h[..|h| - 1][i] == h[i];
      LastWins(env, h[..|h| - 1], i);
    }
  }

  // The values the positional arguments hold, in the order of their declaration.
  function Gather(stored: map<ArgId, seq<Value>>, n: nat): seq<Value> {
    if n == 0 then [] else Gather(stored, n - 1) + Read(stored, PositionalId(n - 1))
  }

  function Gathered(env: Env, h: seq<Event>, n: nat): seq<Value> {
    if n == 0 then [] else Gathered(env, h, n - 1) + ValuesOf(env, h, PositionalId(n - 1))
  }

  // The values of the positional tokens in the order of the command line.
  function InOrder(env: Env, h: seq<Event>): seq<Value> {
    if h == [] then []
    else
      var values, e := InOrder(env, h[..|h| - 1]), h[|h| - 1];
      if e.PositionalEvent? && MeaningOf(env, e).Means? && MeaningOf(env, e).value.Some?
      then values + [MeaningOf(env, e).value.value] else values
  }

  // One more positional event adds its value to its own argument; later arguments have none yet.
  lemma ValuesMore(env: Env, h: seq<Event>, e: Event, i: nat)
    requires e.PositionalEvent? && MeaningOf(env, e).Means? && MeaningOf(env, e).value.Some?
    requires Ordered(h + [e]) && forall x :: x in h && IdOf(x) == IdOf(e) ==> x.arg == e.arg
    ensures ValuesOf(env, h + [e], PositionalId(i))
         == ValuesOf(env, h, PositionalId(i)) + if i == e.index then [MeaningOf(env, e).value.value] else []
    ensures i > e.index ==> ValuesOf(env, h, PositionalId(i)) == []
  {
    hide MeaningOf, Occurs, Ordered;
    OneMore(env, h, e, PositionalId(i));
    NothingWithout(env, h, PositionalId(i));
    EarlierIndexes(h, e);
    assert (h + [e])[..|h|] == h;
  }

  lemma {:induction false} GatheredMore(env: Env, h: seq<Event>, e: Event, n: nat)
    requires e.PositionalEvent? && MeaningOf(env, e).Means? && MeaningOf(env, e).value.Some?
    requires Ordered(h + [e]) && forall x :: x in h && IdOf(x) == IdOf(e) ==> x.arg == e.arg
    ensures Gathered(env, h + [e], n) == Gathered(env, h, n) + if n > e.index then [MeaningOf(env, e).value.value] else []
  {
    hide MeaningOf, ValuesOf, Ordered;
    if n == 0 {
    } else {
      GatheredMore(env, h, e, n - 1);
      ValuesMore(env, h, e, n - 1);
    }
  }

  lemma EarlierIndexes(h: seq<Event>, e: Event)
    requires e.PositionalEvent? && Ordered(h + [e])
    ensures forall i: nat :: Occurs(h, PositionalId(i)) ==> i < e.index || (i == e.index && SharedAppend(h, i))
  {
    forall i: nat | Occurs(h, PositionalId(i)) ensures i < e.index || (i == e.index && SharedAppend(h, i)) {
      var x :| x in h && IdOf(x) == Some(PositionalId(i));
      var k :| 0 <= k < |h| && h[k] == x;
      assert (h + [e])[k] == x && (h + [e])[|h|] == e;
    }
  }

  predicate SharedAppend(h: seq<Event>, i: nat) {
    exists x :: x in h && IdOf(x) == Some(PositionalId(i)) && x.arg.isAppend
  }

  ghost predicate OneArgEach(h: seq<Event>) {
    forall x, y :: x in h && y in h && x.PositionalEvent? && IdOf(x) == IdOf(y) ==> x.arg == y.arg
  }

  lemma {:induction false} GatheredInOrder(env: Env, h: seq<Event>, n: nat)
    requires Ordered(h) && OneArgEach(h)
    requires forall e :: e in h && e.PositionalEvent? ==> e.index < n && MeaningOf(env, e).Means? && MeaningOf(env, e).value.Some?
    ensures Gathered(env, h, n) == InOrder(env, h)
  {
    if h == [] {
      NothingGathered(env, n);
    } else {
      var before, e := h[..|h| - 1], h[|h| - 1];
      assert h == before + [e];
      GatheredInOrder(env, before, n);
      if e.PositionalEvent? {
        assert e in h;
        GatheredMore(env, before, e, n);
      } else {
        GatheredOther(env, before, e, n);
      }
    }
  }

  lemma {:induction false} NothingGathered(env: Env, n: nat)
    ensures Gathered(env, [], n) == []
  {
    if n == 0 {
    } else {
      NothingGathered(env, n - 1);
    }
  }

  lemma {:induction false} GatheredOther(env: Env, h: seq<Event>, e: Event, n: nat)
    requires !e.PositionalEvent?
    ensures Gathered(env, h + [e], n) == Gathered(env, h, n)
  {
    if n == 0 {
    } else {
      GatheredOther(env, h, e, n - 1);
      OneMore(env, h, e, PositionalId(n - 1));
    }
  }

  lemma {:induction false} GatherIsGathered(env: Env, s: State, n: nat)
    requires PositionalsOk(env, s)
    ensures Gather(s.stored, n) == Gathered(env, s.history, n)
  {
    if n == 0 {
    } else {
      GatherIsGathered(env, s, n - 1);
    }
  }

  // With string arguments the values are the words themselves.
  lemma {:induction false} StringsInOrder(env: Env, h: seq<Event>)
    requires forall e :: e in h && e.PositionalEvent? ==> e.arg.kind == String
    ensures |InOrder(env, h)| == |PositionalWords(h)|
    ensures forall i :: 0 <= i < |PositionalWords(h)| ==> InOrder(env, h)[i] == Str(PositionalWords(h)[i])
  {
    if h == [] {
    } else {
      assert h[|h| - 1] in h;
      StringsInOrder(env, h[..|h| - 1]);
    }
  }

  lemma EventsAreGiven(env: Env, s: State)
    requires PositionalsOk(env, s)
    ensures Ordered(s.history) && OneArgEach(s.history)
    ensures forall e :: e in s.history && e.PositionalEvent? ==>
              e.index < |Active(s).positionals| && MeaningOf(env, e).Means? && MeaningOf(env, e).value.Some?
              && e.arg == Active(s).positionals[e.index]
  {}

  // After a success the words of the command line are the selected subcommands followed by the
  // positional tokens, and the values the positional arguments hold, read in the order of
  // declaration, are the values of those tokens in the order of the command line.
  lemma PositionalsConserved(env: Env, root: Command, tokens: seq<string>)
    requires WalksOptions(env) && Built(root) && Configured(root) && Parse(env, root, tokens).Success?
    ensures var s := Parse(env, root, tokens).state; var args := Active(s).positionals;
            && s.index <= |args|
            && Words(tokens) == PathNames(s.path) + PositionalWords(s.history)
            && Gather(s.stored, |args|) == InOrder(env, s.history)
            && ((forall a :: a in args ==> a.kind == String) ==>
                  && |Gather(s.stored, |args|)| == |PositionalWords(s.history)|
                  && forall i :: 0 <= i < |PositionalWords(s.history)| ==>
                       Gather(s.stored, |args|)[i] == Str(PositionalWords(s.history)[i]))
  {
    hide Tokens, Spelled, Words, FinalizeOptions, ValuesOf, Gather, Gathered, InOrder, PositionalWords, Ordered, OneArgEach;
    hide PathOk, OptionsOk, MetaOk, OptionEvents, WordsOf, Built, Configured;
    ParseReads(env, root, tokens);
    var s := Tokens(env, Start(root), tokens).state;
    FinalizeKeepsInv(env, s);
    var done := FinalizeOptions(s).state;
    FinalizeAddsNothing(s);
    EventsAreGiven(env, done);
    GatherIsGathered(env, done, |Active(s).positionals|);
    GatheredInOrder(env, done.history, |Active(s).positionals|);
    if forall a :: a in Active(s).positionals ==> a.kind == String { StringsInOrder(env, done.history); }
  }
}
