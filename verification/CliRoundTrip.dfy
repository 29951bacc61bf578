/** The command line a filled form prints runs the chosen command with exactly the entered values. */
module CliRoundTrip {
  import opened Wrappers
  import opened Text
  import opened CliParser
  import opened CliForm
  import opened CliRouter
  import opened CliRunner
  import opened CliOptions

  // ---------- positionals ----------

  /** Required positionals first, a variadic one last, distinct names. */
  predicate ArgsDeclared(args: seq<Arg>) {
    && (forall i, j | 0 <= i < j < |args| :: Asked(args[j].config) ==> Asked(args[i].config))
    && (forall i | 0 <= i < |args| :: args[i].config.isRequired ==> args[i].config.default.None?)
    && (forall i | 0 <= i < |args| :: args[i].config.isVariadic ==> i == |args| - 1)
    && (forall i: nat, j: nat | i < j < |args| :: ArgName(args[i], i) != ArgName(args[j], j))
  }

  predicate ArgFits(arg: Arg, value: Entered) {
    && value.Typed? && value.text != ""
    && (if arg.config.isVariadic then Words(value.text) != [] && Plain(Words(value.text)) else !Starts(value.text, "-"))
  }

  predicate ArgsFit(args: seq<Arg>, values: seq<Entered>) {
    |values| == |args| && forall i | 0 <= i < |args| :: ArgFits(args[i], values[i])
  }

  /** What positional `i` must hold in the end: its answer, if it was asked for. */
  function Expected(args: seq<Arg>, values: seq<Entered>, i: nat): ArgValue
    requires i < |args| && |values| <= |args| && ArgsFit(args[..|values|], values)
  {
    assert i < |values| ==> args[..|values|][i] == args[i] && ArgFits(args[i], values[i]);
    if args[i].config.isVariadic then Many(if i < |values| then Words(values[i].text) else [])
    else if i < |values| then One(values[i].text)
    else Absent
  }

  lemma {:induction false} AskedPrefix(args: seq<Arg>)
    requires forall i, j | 0 <= i < j < |args| :: Asked(args[j].config) ==> Asked(args[i].config)
    ensures |AskedArgs(args)| <= |args| && AskedArgs(args) == args[..|AskedArgs(args)|]
    ensures forall i | 0 <= i < |args| :: Asked(args[i].config) <==> i < |AskedArgs(args)|
  {
    if args != [] {
      var n := |args| - 1;
      AskedPrefix(args[..n]);
      assert forall i | 0 <= i < n :: args[..n][i] == args[i];
      if Asked(args[n].config) && n > 0 {
        assert Asked(args[n - 1].config);
      }
    }
  }

  /** The printed positional tokens: one for each answer, or all the words of a final variadic one. */
  predicate TokensMatch(args: seq<Arg>, values: seq<Entered>, tokens: seq<string>)
    requires ArgsFit(args, values)
  {
    var n := |args|;
    && Plain(tokens)
    && |tokens| >= n
    && (forall i | 0 <= i < n :: ArgFits(args[i], values[i]) && (!args[i].config.isVariadic ==> tokens[i] == values[i].text))
    && (if n > 0 && args[n - 1].config.isVariadic then ArgFits(args[n - 1], values[n - 1]) && tokens[n - 1..] == Words(values[n - 1].text)
        else |tokens| == n)
  }

  lemma ArgToken(arg: Arg, value: Entered)
    requires ArgFits(arg, value)
    ensures TokensOf(FieldOfArg(arg), Some(value)) == if arg.config.isVariadic then Words(value.text) else [value.text]
  {
  }

  lemma MatchOne(args: seq<Arg>, values: seq<Entered>, tokens: seq<string>)
    requires ArgsFit(args, values) && |args| == 1
    requires tokens == if args[0].config.isVariadic then Words(values[0].text) else [values[0].text]
    ensures TokensMatch(args, values, tokens)
  {
    hide Words;
    assert ArgFits(args[0], values[0]);
  }

  lemma MatchMore(args: seq<Arg>, values: seq<Entered>, tokens: seq<string>)
    requires ArgsFit(args, values) && |args| > 1 && !args[0].config.isVariadic && tokens != []
    requires ArgsFit(args[1..], values[1..]) && TokensMatch(args[1..], values[1..], tokens[1..])
    requires tokens[0] == values[0].text
    ensures TokensMatch(args, values, tokens)
  {
    hide Words, Starts;
    var n := |args|;
    assert args[1..][n - 2] == args[n - 1] && values[1..][n - 2] == values[n - 1] && tokens[n - 1..] == tokens[1..][n - 2..];
    forall i | 0 <= i < n ensures ArgFits(args[i], values[i]) && (!args[i].config.isVariadic ==> tokens[i] == values[i].text) {
      if i > 0 {
        assert args[i] == args[1..][i - 1] && values[i] == values[1..][i - 1] && tokens[i] == tokens[1..][i - 1];
      }
    }
    PlainText(args[0], values[0]);
    assert tokens == [tokens[0]] + tokens[1..];
  }

  lemma PlainText(arg: Arg, value: Entered)
    ensures ArgFits(arg, value) && !arg.config.isVariadic ==> !Starts(value.text, "-")
  {
  }

  lemma {:induction false} ArgTokens(args: seq<Arg>, values: seq<Entered>)
    requires ArgsFit(args, values) && forall i | 0 <= i < |args| - 1 :: !args[i].config.isVariadic
    ensures TokensMatch(args, values, Tokens(ArgFields(args), values))
  {
    hide Words, TokensOf, TokensMatch, FieldOfArg;
    var tokens := Tokens(ArgFields(args), values);
    if args == [] {
      MatchNone(values);
    } else {
      assert ArgFits(args[0], values[0]);
      assert ArgFields(args)[0] == FieldOfArg(args[0]) && ArgFields(args)[1..] == ArgFields(args[1..]);
      ArgToken(args[0], values[0]);
      var rest := Tokens(ArgFields(args[1..]), values[1..]);
      assert tokens == TokensOf(FieldOfArg(args[0]), Some(values[0])) + rest;
      if |args| == 1 {
        assert rest == [];
        MatchOne(args, values, tokens);
      } else {
        TailFits(args, values);
        ArgTokens(args[1..], values[1..]);
        assert tokens[1..] == rest;
        MatchMore(args, values, tokens);
      }
    }
  }

  lemma MatchNone(values: seq<Entered>)
    requires values == []
    ensures TokensMatch([], values, [])
  {
  }

  lemma TailFits(args: seq<Arg>, values: seq<Entered>)
    requires ArgsFit(args, values) && args != []
    ensures ArgsFit(args[1..], values[1..])
  {
  }

  /** The first `n` positionals, and nothing else, hold what they must. */
  ghost predicate ArgsSoFar(args: seq<Arg>, values: seq<Entered>, n: nat, result: map<string, ArgValue>)
    requires n <= |args| && |values| <= |args| && ArgsFit(args[..|values|], values)
  {
    && (forall i: nat | i < n :: ArgName(args[i], i) in result && result[ArgName(args[i], i)] == Expected(args, values, i))
    && (forall name | name in result :: exists i: nat | i < n :: ArgName(args[i], i) == name)
  }

  lemma OneMore(args: seq<Arg>, values: seq<Entered>, n: nat, done: map<string, ArgValue>)
    requires n < |args| && |values| <= |args| && ArgsFit(args[..|values|], values)
    requires ArgsSoFar(args, values, n, done) && forall i: nat | i < n :: ArgName(args[i], i) != ArgName(args[n], n)
    ensures ArgsSoFar(args, values, n + 1, done[ArgName(args[n], n) := Expected(args, values, n)])
  {
    hide ArgName, Expected, ArgsFit;
    var name := ArgName(args[n], n);
    var next := done[name := Expected(args, values, n)];
    forall other | other in next ensures exists i: nat | i < n + 1 :: ArgName(args[i], i) == other {
      if other == name {
        assert ArgName(args[n], n) == other;
      } else {
        var i: nat :| i < n && ArgName(args[i], i) == other;
        assert i < n + 1;
      }
    }
  }

  /** What the tokens offer positional `i` is what it must hold, and is there if required. */
  lemma Offered(args: seq<Arg>, values: seq<Entered>, tokens: seq<string>, i: nat)
    requires ArgsDeclared(args) && i < |args| && |values| <= |args|
    requires ArgsFit(args[..|values|], values) && TokensMatch(args[..|values|], values, tokens)
    requires forall j | 0 <= j < |args| :: Asked(args[j].config) <==> j < |values|
    ensures var config := args[i].config;
            if config.isVariadic then
              Many(From(tokens, i)) == Expected(args, values, i) && (config.isRequired ==> From(tokens, i) != [])
            else
              && Expected(args, values, i) == (if i < |tokens| then One(tokens[i]) else Absent)
              && (config.isRequired ==> i < |tokens|)
              && (i == |args| - 1 ==> |tokens| <= |args|)
  {
    hide Words, ArgName, Plain;
    var n, config := |values|, args[i].config;
    assert i < n ==> args[..n][i] == args[i] && ArgFits(args[i], values[i]);
    assert n > 0 ==> args[..n][n - 1] == args[n - 1];
    assert config.isRequired ==> Asked(config);
  }

  /** The assignment goes on to give every positional what it must hold. */
  lemma {:induction false} AssignEntered(args: seq<Arg>, values: seq<Entered>, tokens: seq<string>, i: nat, done: map<string, ArgValue>)
    requires ArgsDeclared(args) && i <= |args| && |values| <= |args|
    requires ArgsFit(args[..|values|], values) && TokensMatch(args[..|values|], values, tokens)
    requires forall j | 0 <= j < |args| :: Asked(args[j].config) <==> j < |values|
    requires ArgsSoFar(args, values, i, done) && (i == |args| ==> |tokens| <= |args|)
    ensures var r := Assign(args, tokens, i, done); r.Ok? && ArgsSoFar(args, values, |args|, r.value)
    decreases |args| - i
  {
    hide ArgName, Expected, TokensMatch, ArgsFit, ArgsSoFar, Asked, ArgsDeclared, From;
    if i < |args| {
      Offered(args, values, tokens, i);
      DeclaredAt(args, i);
      OneMore(args, values, i, done);
      if !args[i].config.isVariadic {
        AssignEntered(args, values, tokens, i + 1, done[ArgName(args[i], i) := Expected(args, values, i)]);
      }
    }
  }

  lemma DeclaredAt(args: seq<Arg>, n: nat)
    requires ArgsDeclared(args) && n < |args|
    ensures args[n].config.isVariadic ==> n == |args| - 1
    ensures forall i: nat | i < n :: ArgName(args[i], i) != ArgName(args[n], n)
  {
    hide ArgName;
  }

  lemma NothingAsked(args: seq<Arg>, values: seq<Entered>, tokens: seq<string>)
    requires |values| <= |args| && ArgsFit(args[..|values|], values)
    ensures ArgsSoFar(args, values, 0, map[])
    ensures TokensMatch(args[..|values|], values, tokens) && args == [] ==> |tokens| <= |args|
  {
  }

  // ---------- the filled form ----------

  function GlobalNames(globals: map<string, Config>): set<string> {
    set key, name | key in globals && name in NamesOf(globals[key]) :: name
  }

  function DeclaredArgs(command: CommandConfig): seq<Arg> {
    command.args.GetOr([])
  }

  function FieldsOf(command: CommandConfig): seq<Field> {
    ArgFields(AskedArgs(DeclaredArgs(command))) + OptionFields(AskedOptions(command.options))
  }

  /** A filled form: the command it was opened for and its answers, positionals and options apart. */
  datatype Filled = Filled(path: seq<string>, command: CommandConfig, argValues: seq<Entered>, optionValues: seq<Entered>)

  function Root(cli: Cli): Node {
    InsertAll(ROOT, Entries(cli.groups, cli.commands))
  }

  /** The path leads to that command, and to nothing below it. */
  predicate Leaf(cli: Cli, path: seq<string>, command: CommandConfig) {
    && path != [] && Plain(path)
    && At(Root(cli), path).Some? && At(Root(cli), path).value.children == []
    && Join(path) in CommandMap(cli.commands) && CommandMap(cli.commands)[Join(path)] == command
  }

  ghost predicate OptionsDeclared(cli: Cli, command: CommandConfig) {
    var all := AllOptions(cli, command);
    && DistinctFlags(all)
    && (forall i, j | 0 <= i < j < |command.options| :: command.options[i].0 != command.options[j].0)
    && (forall option | option in AskedOptions(command.options) ::
          && NameFits(all, option.1.name)
          && option.1.name !in GlobalNames(cli.globals) && "no-" + option.1.name !in GlobalNames(cli.globals))
  }

  ghost predicate Declared(cli: Cli, form: Filled) {
    Leaf(cli, form.path, form.command) && ArgsDeclared(DeclaredArgs(form.command)) && OptionsDeclared(cli, form.command)
  }

  predicate Answered(cli: Cli, form: Filled) {
    && ArgsFit(AskedArgs(DeclaredArgs(form.command)), form.argValues)
    && ValuesFit(cli.number, AskedOptions(form.command.options), form.optionValues)
  }

  function EnteredBy(cli: Cli, form: Filled): map<string, Value>
    requires Answered(cli, form)
  {
    EnteredOptions(cli.number, AskedOptions(form.command.options), form.optionValues)
  }

  /** The options the form does not ask for do not stop the command. */
  predicate OthersSettled(cli: Cli, form: Filled)
    requires Answered(cli, form)
  {
    var all := AllOptions(cli, form.command);
    var entered := EnteredBy(cli, form);
    && EnvUsable(cli.number, all, cli.env, entered)
    && RequiredPresent(all - entered.Keys, Fill(cli.number, all, cli.env, entered))
    && ConflictFree(all, Fill(cli.number, all, cli.env, entered))
  }

  function KeysOf(options: seq<(string, Config)>): set<string> {
    set i | 0 <= i < |options| :: options[i].0
  }

  /** Each option asked for holds what was answered. */
  predicate AsAnswered(number: string -> Option<real>, options: seq<(string, Config)>, values: seq<Entered>, result: map<string, Value>) {
    && |values| == |options|
    && forall i | 0 <= i < |options| :: options[i].0 in result && Means(number, options[i].1, values[i], result[options[i].0])
  }

  /** Entered options exactly, others from the environment or a default; positionals exactly. */
  ghost predicate RanAsEntered(cli: Cli, form: Filled, outcome: Outcome)
    requires Answered(cli, form) && OthersSettled(cli, form) && ArgsDeclared(DeclaredArgs(form.command))
  {
    var args := DeclaredArgs(form.command);
    var entered := EnteredBy(cli, form);
    AskedPrefix(args);
    && outcome.Ran? && outcome.path == form.path
    && outcome.options == Fill(cli.number, AllOptions(cli, form.command), cli.env, entered)
    && AsAnswered(cli.number, AskedOptions(form.command.options), form.optionValues, outcome.options)
    && Supplied(cli.number, AllOptions(cli, form.command), cli.env, KeysOf(AskedOptions(form.command.options)), outcome.options)
    && ArgsSoFar(args, form.argValues, |args|, outcome.args)
  }

  /** The command runs as entered, unless its other options stop it. */
  ghost predicate EndsAsEntered(cli: Cli, form: Filled, outcome: Outcome)
    requires Answered(cli, form) && ArgsDeclared(DeclaredArgs(form.command))
  {
    if OthersSettled(cli, form) then RanAsEntered(cli, form, outcome) else outcome.Failed?
  }

  // ---------- routing the printed line ----------

  predicate OwnFlag(byName: map<string, Config>, token: string) {
    Starts(token, "-") && FlagName(token) !in byName
  }

  lemma {:induction false} SplitPrinted(byName: map<string, Config>, plain: seq<string>, flags: seq<string>)
    requires Plain(plain) && (flags == [] || OwnFlag(byName, flags[0]))
    ensures SplitArgs(byName, plain + flags) == (plain, flags)
    decreases |plain|
  {
    hide FlagName;
    if plain == [] {
      assert plain + flags == flags;
    } else {
      assert (plain + flags)[0] == plain[0] && plain[0] in plain && (plain + flags)[1..] == plain[1..] + flags;
      SplitPrinted(byName, plain[1..], flags);
      assert [plain[0]] + plain[1..] == plain;
    }
  }

  lemma NameOfFlag(name: string)
    requires '=' !in name
    ensures Starts("--" + name, "-") && FlagName("--" + name) == name
  {
    var arg := "--" + name;
    assert arg[..1] == "-" && arg[..2] == "--" && arg[2..] == name;
    assert '=' !in arg by {
      assert forall i | 2 <= i < |arg| :: arg[i] == name[i - 2];
    }
  }

  lemma NotHelp(name: string)
    ensures name != "help" ==> "--" + name != "--help"
    ensures "--" + name != "-h" && "--no-" + name != "-h" && "--no-" + name != "--help"
  {
    assert ("--" + name)[2..] == name && "--help"[2..] == "help";
    assert ("--no-" + name)[2] == 'n' && "--help"[2] == 'h';
    assert ("--" + name)[1] == '-' && "-h"[1] == 'h' && ("--no-" + name)[1] == '-';
  }

  predicate Helpless(tokens: seq<string>) {
    "--help" !in tokens && "-h" !in tokens
  }

  lemma PlainIsHelpless(tokens: seq<string>)
    requires Plain(tokens)
    ensures Helpless(tokens)
  {
    assert Starts("--help", "-") && Starts("-h", "-");
  }

  lemma {:induction false} RepeatHelpless(name: string, words: seq<string>)
    requires name != "help" && Plain(words)
    ensures Helpless(Repeat(name, words))
  {
    if words != [] {
      NotHelp(name);
      PlainIsHelpless(words);
      RepeatHelpless(name, words[1..]);
    }
  }

  lemma {:induction false} OptionsHelpless(number: string -> Option<real>, options: seq<(string, Config)>, values: seq<Entered>)
    requires ValuesFit(number, options, values)
    requires forall option | option in options :: !option.1.kind.PositionalType? && option.1.name != "help"
    ensures Helpless(Tokens(OptionFields(options), values))
  {
    if options != [] {
      hide Coerce;
      var config := options[0].1;
      assert options[0] in options && ValueFits(number, config, values[0]);
      HeadTokens(options, values);
      NotHelp(config.name);
      if !config.kind.BooleanType? {
        var words := if config.isVariadic then Words(values[0].text) else [values[0].text];
        assert forall w | w in words :: TokenFits(number, config, w);
        PlainIsHelpless(words);
        RepeatHelpless(config.name, words);
      }
      OptionsHelpless(number, options[1..], values[1..]);
    }
  }

  lemma FirstToken(number: string -> Option<real>, options: seq<(string, Config)>, values: seq<Entered>)
    requires ValuesFit(number, options, values) && options != [] && !options[0].1.kind.PositionalType?
    ensures Tokens(OptionFields(options), values) != []
    ensures var name := options[0].1.name; Tokens(OptionFields(options), values)[0] in {"--" + name, "--no-" + name}
  {
    hide Coerce;
    var config := options[0].1;
    assert ValueFits(number, config, values[0]);
    HeadTokens(options, values);
    TypedNonempty(if values[0].Typed? then values[0].text else "");
    var first := TokensOf(FieldOfOption(config), Some(values[0]));
    assert first != [] && first[0] in {"--" + config.name, "--no-" + config.name};
  }

  lemma OwnName(globals: map<string, Config>, byName: map<string, Config>, name: string)
    requires IndexesGlobals(byName, globals) && '=' !in name
    requires name !in GlobalNames(globals) && "no-" + name !in GlobalNames(globals)
    ensures OwnFlag(byName, "--" + name) && OwnFlag(byName, "--no-" + name)
  {
    hide FlagName, Starts;
    NameOfFlag(name);
    NameOfFlag("no-" + name);
    assert "--" + ("no-" + name) == "--no-" + name;
  }

  // ---------- the asked options ----------

  lemma {:induction false} AskedAmong(options: seq<(string, Config)>)
    requires forall i, j | 0 <= i < j < |options| :: options[i].0 != options[j].0
    ensures var asked := AskedOptions(options);
            && (forall option | option in asked :: option in options && AskedOption(option.1))
            && (forall i, j | 0 <= i < j < |asked| :: asked[i].0 != asked[j].0)
            && (forall option | option in options && AskedOption(option.1) :: option in asked)
  {
    if options != [] {
      AskedAmong(options[..|options| - 1]);
    }
  }

  lemma {:induction false} OptionMapHas(options: seq<(string, Config)>, option: (string, Config))
    requires forall i, j | 0 <= i < j < |options| :: options[i].0 != options[j].0
    requires option in options
    ensures option.0 in OptionMap(options) && OptionMap(options)[option.0] == option.1
  {
    var n := |options| - 1;
    if option != options[n] {
      assert option in options[..n];
      OptionMapHas(options[..n], option);
    }
  }

  lemma {:induction false} EnteredKeys(number: string -> Option<real>, options: seq<(string, Config)>, values: seq<Entered>)
    requires ValuesFit(number, options, values)
    requires forall i, j | 0 <= i < j < |options| :: options[i].0 != options[j].0
    ensures forall key | key in EnteredOptions(number, options, values) ::
              exists i | 0 <= i < |options| :: options[i].0 == key
                && EnteredOptions(number, options, values)[key] == EnteredValue(number, options[i].1, values[i])
    ensures forall i | 0 <= i < |options| :: options[i].0 in EnteredOptions(number, options, values)
  {
    hide EnteredValue, ValueFits;
    if options != [] {
      var rest := EnteredOptions(number, options[1..], values[1..]);
      EnteredKeys(number, options[1..], values[1..]);
      assert forall i | 0 < i < |options| :: options[i] == options[1..][i - 1] && values[i] == values[1..][i - 1];
      forall key | key in EnteredOptions(number, options, values)
        ensures exists i | 0 <= i < |options| :: options[i].0 == key
                  && EnteredOptions(number, options, values)[key] == EnteredValue(number, options[i].1, values[i])
      {
        if key in rest {
          var i :| 0 <= i < |options| - 1 && options[1..][i].0 == key && rest[key] == EnteredValue(number, options[1..][i].1, values[1..][i]);
          assert options[i + 1].0 == key;
        } else {
          assert options[0].0 == key;
        }
      }
    }
  }

  // ---------- the round trip ----------

  function Printed(form: Filled): seq<string> {
    form.path + Tokens(FieldsOf(form.command), form.argValues + form.optionValues)
  }

  lemma PrintedLine(cli: Cli, form: Filled)
    requires Answered(cli, form)
    ensures Tokens(FieldsOf(form.command), form.argValues + form.optionValues)
         == Tokens(ArgFields(AskedArgs(DeclaredArgs(form.command))), form.argValues)
            + Tokens(OptionFields(AskedOptions(form.command.options)), form.optionValues)
  {
    TokensSplit(ArgFields(AskedArgs(DeclaredArgs(form.command))), form.argValues,
                OptionFields(AskedOptions(form.command.options)), form.optionValues);
  }

  lemma {:induction false} TokensSplit(first: seq<Field>, firstValues: seq<Entered>, rest: seq<Field>, restValues: seq<Entered>)
    requires |first| == |firstValues|
    ensures Tokens(first + rest, firstValues + restValues) == Tokens(first, firstValues) + Tokens(rest, restValues)
  {
    hide TokensOf;
    if first == [] {
      assert first + rest == rest && firstValues + restValues == restValues;
    } else {
      var values := firstValues + restValues;
      TokensSplit(first[1..], firstValues[1..], rest, restValues);
      assert (first + rest)[1..] == first[1..] + rest && values[1..] == firstValues[1..] + restValues;
      assert (first + rest)[0] == first[0] && ValueAt(values, 0) == ValueAt(firstValues, 0);
      Associates(TokensOf(first[0], ValueAt(values, 0)), Tokens(first[1..], firstValues[1..]), Tokens(rest, restValues));
    }
  }

  /** The printed line is dispatched to the form's command, positionals before flags. */
  lemma PrintedIsDispatched(cli: Cli, form: Filled, byName: map<string, Config>, plain: seq<string>, flags: seq<string>)
    requires Declared(cli, form) && Answered(cli, form) && IndexesGlobals(byName, cli.globals)
    requires Plain(plain) && flags == Tokens(OptionFields(AskedOptions(form.command.options)), form.optionValues)
    ensures Dispatched(Root(cli), CommandMap(cli.commands), byName, form.path + plain + flags)
         == Call(form.path, form.command, plain + flags)
  {
    hide Join, At, FlagName, Starts, FlagsOf, NameFits, ValueFits, Tokens;
    var options := AskedOptions(form.command.options);
    AskedAmong(form.command.options);
    OptionNames(cli, form.command);
    OptionsHelpless(cli.number, options, form.optionValues);
    PlainIsHelpless(form.path);
    PlainIsHelpless(plain);
    if options != [] {
      FirstToken(cli.number, options, form.optionValues);
      OwnName(cli.globals, byName, options[0].1.name);
    } else {
      assert flags == [] by { NoneAsked(form.optionValues); }
    }
    SplitPrinted(byName, form.path + plain, flags);
    PathRoutes(Root(cli), form.path, plain);
  }

  lemma NoneAsked(values: seq<Entered>)
    ensures Tokens(OptionFields([]), values) == []
  {
  }

  lemma OptionNames(cli: Cli, command: CommandConfig)
    requires OptionsDeclared(cli, command)
    ensures forall option | option in AskedOptions(command.options) ::
              && !option.1.kind.PositionalType? && option.1.name != "help" && '=' !in option.1.name
              && option.1.name !in GlobalNames(cli.globals) && "no-" + option.1.name !in GlobalNames(cli.globals)
  {
    AskedAmong(command.options);
  }

  lemma Associates(a: seq<string>, b: seq<string>, c: seq<string>)
    ensures a + (b + c) == (a + b) + c
  {
  }

  lemma PrintedIsRead(cli: Cli, form: Filled, ctx: Context, plain: seq<string>)
    requires Declared(cli, form) && Answered(cli, form) && Plain(plain)
    requires ctx.all == AllOptions(cli, form.command) && ctx.number == cli.number && Indexes(ctx.table, ctx.all)
    ensures ParseFrom(ctx, plain + Tokens(OptionFields(AskedOptions(form.command.options)), form.optionValues), START)
         == Ok(State(EnteredBy(cli, form), plain, false, false, false))
  {
    hide Tokens, ParseFrom, ValueFits, EnteredOptions, Answers, NameFits, Leaf;
    var options := AskedOptions(form.command.options);
    AllAnswered(cli, form.command, ctx.table);
    ParsePlain(ctx, plain, Tokens(OptionFields(options), form.optionValues), START);
    assert [] + plain == plain;
    ParseOptions(ctx, options, form.optionValues, START.(positionals := plain));
    assert map[] + EnteredBy(cli, form) == EnteredBy(cli, form);
  }

  /** The command's parser reads the printed flags as exactly the entered options. */
  lemma PrintedIsParsed(cli: Cli, form: Filled, ctx: Context, plain: seq<string>)
    requires Declared(cli, form) && Answered(cli, form) && Plain(plain)
    requires ctx.all == AllOptions(cli, form.command) && ctx.number == cli.number && Indexes(ctx.table, ctx.all)
    ensures var r := Parsed(ctx, cli.env, plain + Tokens(OptionFields(AskedOptions(form.command.options)), form.optionValues));
            if OthersSettled(cli, form)
            then r == Ok(State(Fill(cli.number, ctx.all, cli.env, EnteredBy(cli, form)), plain, false, false, false))
            else r.Err?
  {
    hide Tokens, ParseFrom, ValuesFit, EnteredOptions, Declared, Fill, EnvUsable, RequiredPresent, ConflictFree;
    PrintedIsRead(cli, form, ctx, plain);
    if OthersSettled(cli, form) {
      FilledPresent(cli, form);
    } else if EnvUsable(cli.number, ctx.all, cli.env, EnteredBy(cli, form)) {
      FewerRequired(ctx.all, EnteredBy(cli, form).Keys, Fill(cli.number, ctx.all, cli.env, EnteredBy(cli, form)));
    }
  }

  lemma FewerRequired(all: map<string, Config>, keys: set<string>, options: map<string, Value>)
    ensures RequiredPresent(all, options) ==> RequiredPresent(all - keys, options)
  {
  }

  lemma AllAnswered(cli: Cli, command: CommandConfig, table: map<string, string>)
    requires OptionsDeclared(cli, command) && Indexes(table, AllOptions(cli, command))
    ensures AllAnswer(Context(table, AllOptions(cli, command), cli.number), AskedOptions(command.options))
  {
    hide Answers, NameFits, DistinctFlags;
    var options := AskedOptions(command.options);
    var ctx := Context(table, AllOptions(cli, command), cli.number);
    AskedAmong(command.options);
    forall i | 0 <= i < |options| ensures Answers(ctx, options[i].0, options[i].1) {
      assert options[i] in options;
      OptionMapHas(command.options, options[i]);
      FlagAnswers(ctx, options[i].0, options[i].1);
    }
  }

  lemma EnteredIsFilled(cli: Cli, form: Filled)
    requires Answered(cli, form)
    requires EnvUsable(cli.number, AllOptions(cli, form.command), cli.env, EnteredBy(cli, form))
    ensures var filled := Fill(cli.number, AllOptions(cli, form.command), cli.env, EnteredBy(cli, form));
            forall key | key in EnteredBy(cli, form) :: key in filled && filled[key] == EnteredBy(cli, form)[key]
  {
  }

  /** No asked option is missing once filled in. */
  lemma FilledPresent(cli: Cli, form: Filled)
    requires Declared(cli, form) && Answered(cli, form) && OthersSettled(cli, form)
    ensures var all := AllOptions(cli, form.command);
            RequiredPresent(all, Fill(cli.number, all, cli.env, EnteredBy(cli, form)))
  {
    hide Coerce, Leaf;
    var options := AskedOptions(form.command.options);
    var all := AllOptions(cli, form.command);
    var entered := EnteredBy(cli, form);
    var filled := Fill(cli.number, all, cli.env, entered);
    EnteredIsFilled(cli, form);
    AskedAmong(form.command.options);
    EnteredKeys(cli.number, options, form.optionValues);
    forall key | key in all && !all[key].kind.PositionalType? && all[key].isRequired
      ensures !Missing(filled, key, all[key])
    {
      if key in entered {
        var i :| 0 <= i < |options| && options[i].0 == key && entered[key] == EnteredValue(cli.number, options[i].1, form.optionValues[i]);
        assert options[i] in options && ValueFits(cli.number, options[i].1, form.optionValues[i]);
        OptionMapHas(form.command.options, options[i]);
        EnteredNotEmpty(cli.number, options[i].1, form.optionValues[i]);
      } else {
        assert (all - entered.Keys)[key] == all[key];
      }
    }
  }

  lemma EnteredNotEmpty(number: string -> Option<real>, config: Config, value: Entered)
    requires ValueFits(number, config, value)
    ensures EnteredValue(number, config, value) != List([]) || !config.isVariadic
  {
  }

  lemma PlainAssigned(args: seq<Arg>, values: seq<Entered>, plain: seq<string>)
    requires ArgsDeclared(args) && ArgsFit(AskedArgs(args), values) && plain == Tokens(ArgFields(AskedArgs(args)), values)
    ensures Plain(plain)
    ensures |values| <= |args| && ArgsFit(args[..|values|], values)
    ensures Assign(args, plain, 0, map[]).Ok? && ArgsSoFar(args, values, |args|, Assign(args, plain, 0, map[]).value)
  {
    hide Tokens, ArgName, TokensMatch, ArgsFit, Assign;
    AskedPrefix(args);
    assert forall i | 0 <= i < |AskedArgs(args)| :: AskedArgs(args)[i] == args[i];
    FitLength(AskedArgs(args), values);
    ArgTokens(AskedArgs(args), values);
    MatchIsPlain(AskedArgs(args), values, plain);
    NothingAsked(args, values, plain);
    AssignEntered(args, values, plain, 0, map[]);
  }

  lemma FitLength(args: seq<Arg>, values: seq<Entered>)
    ensures ArgsFit(args, values) ==> |values| == |args|
  {
  }

  lemma MatchIsPlain(args: seq<Arg>, values: seq<Entered>, tokens: seq<string>)
    requires ArgsFit(args, values)
    ensures TokensMatch(args, values, tokens) ==> Plain(tokens)
  {
  }

  /** Filling in the other options leaves the entered ones as answered. */
  lemma FilledAsAnswered(cli: Cli, form: Filled)
    requires Answered(cli, form) && OptionsDeclared(cli, form.command)
    requires EnvUsable(cli.number, AllOptions(cli, form.command), cli.env, EnteredBy(cli, form))
    ensures var all, options := AllOptions(cli, form.command), AskedOptions(form.command.options);
            var filled := Fill(cli.number, all, cli.env, EnteredBy(cli, form));
            && AsAnswered(cli.number, options, form.optionValues, filled)
            && Supplied(cli.number, all, cli.env, KeysOf(options), filled)
  {
    hide Coerce, Fill, Means, ValuesFit, EnteredOptions, EnvUsable, Supplied, Says, DistinctFlags, NameFits, AllOptions, KeysOf;
    var options := AskedOptions(form.command.options);
    FillSupplies(cli.number, AllOptions(cli, form.command), cli.env, EnteredBy(cli, form));
    AskedAmong(form.command.options);
    EnteredAnswered(cli.number, options, form.optionValues);
  }

  lemma EnteredAnswered(number: string -> Option<real>, options: seq<(string, Config)>, values: seq<Entered>)
    requires ValuesFit(number, options, values)
    requires forall i, j | 0 <= i < j < |options| :: options[i].0 != options[j].0
    ensures AsAnswered(number, options, values, EnteredOptions(number, options, values))
    ensures EnteredOptions(number, options, values).Keys == KeysOf(options)
  {
    hide Means, ValueFits, EnteredValue, EnteredOptions;
    var entered := EnteredOptions(number, options, values);
    EnteredKeys(number, options, values);
    forall i | 0 <= i < |options|
      ensures options[i].0 in entered && Means(number, options[i].1, values[i], entered[options[i].0])
    {
      assert ValueFits(number, options[i].1, values[i]);
      var j :| 0 <= j < |options| && options[j].0 == options[i].0 && entered[options[i].0] == EnteredValue(number, options[j].1, values[j]);
      EnteredMeans(number, options[i].1, values[i]);
    }
  }

  lemma ConcludedAsEntered(cli: Cli, form: Filled, plain: seq<string>)
    requires Answered(cli, form) && OthersSettled(cli, form) && ArgsDeclared(DeclaredArgs(form.command))
    requires OptionsDeclared(cli, form.command)
    requires plain == Tokens(ArgFields(AskedArgs(DeclaredArgs(form.command))), form.argValues)
    ensures Plain(plain)
    ensures var filled := Fill(cli.number, AllOptions(cli, form.command), cli.env, EnteredBy(cli, form));
            RanAsEntered(cli, form, Concluded(form.path, form.command, Ok(State(filled, plain, false, false, false))))
  {
    hide Tokens, ValuesFit, EnteredOptions, EnvUsable, Fill, ArgsFit, ArgsDeclared, AskedArgs, RequiredPresent, ConflictFree, AllOptions,
      OptionsDeclared, AsAnswered, Supplied, AskedOptions;
    FilledAsAnswered(cli, form);
    PlainAssigned(DeclaredArgs(form.command), form.argValues, plain);
  }

  /** Running the line a filled form prints runs its command with exactly its answers, unless the other options stop it. */
  lemma RoundTrip(cli: Cli, form: Filled, byName: map<string, Config>, table: map<string, string>, outcome: Outcome)
    requires Declared(cli, form) && Answered(cli, form)
    ensures Executes(cli, Printed(form), byName, table, outcome) ==> EndsAsEntered(cli, form, outcome)
  {
    hide Tokens, Parsed, Indexes, IndexesGlobals, OthersSettled, OptionsDeclared, Leaf, ValuesFit, EnteredOptions, EnvUsable,
      RanAsEntered, Dispatched, ArgsDeclared, ArgsFit, AllOptions, Fill, Assign;
    var plain := Tokens(ArgFields(AskedArgs(DeclaredArgs(form.command))), form.argValues);
    var flags := Tokens(OptionFields(AskedOptions(form.command.options)), form.optionValues);
    PrintedLine(cli, form);
    Associates(form.path, plain, flags);
    PlainAssigned(DeclaredArgs(form.command), form.argValues, plain);
    if OthersSettled(cli, form) {
      ConcludedAsEntered(cli, form, plain);
    }
    if Executes(cli, Printed(form), byName, table, outcome) {
      PrintedIsDispatched(cli, form, byName, plain, flags);
      PrintedIsParsed(cli, form, Context(table, AllOptions(cli, form.command), cli.number), plain);
    }
  }

  /** What the interactive browser does once a form is confirmed. */
  method RunForm(cli: Cli, form: Filled) returns (outcome: Outcome)
    requires Declared(cli, form) && Answered(cli, form)
    ensures EndsAsEntered(cli, form, outcome)
  {
    hide Declared, Answered, EndsAsEntered, Executes, Tokens;
    var fields := CollectRequiredFields(DeclaredArgs(form.command), form.command.options);
    var args := BuildRunArgs(form.path, fields, form.argValues + form.optionValues);
    var byName, table;
    outcome, byName, table := Execute(cli, args);
    RoundTrip(cli, form, byName, table, outcome);
  }
}
