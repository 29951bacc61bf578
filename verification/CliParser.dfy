/** The argument parser of the CLI framework. */
module CliParser {
  import opened Wrappers
  import opened Text

  datatype OptionType = StringType | NumberType | BooleanType | PositionalType

  /** Parsed values; numbers are what an abstract `Number()` makes of the text. */
  datatype Value = Text(text: string) | Number(number: real) | Flag(on: bool) | List(items: seq<Value>)

  datatype Config = Config(
    name: string, aliases: seq<string>, kind: OptionType,
    isRequired: bool, isVariadic: bool, isHidden: bool, isInt: bool,
    minVal: Option<real>, maxVal: Option<real>, enumVals: Option<seq<string>>,
    default: Option<Value>, envVar: Option<string>, conflictsWith: seq<string>)

  datatype Problem =
    | UnknownOption | RequiresValue | NotANumber | NotAnInteger | BelowMinimum | AboveMaximum | NotABoolean
    | InvalidChoice | MissingOption | ConflictingOptions | UnknownCommand | MissingArgument | UnexpectedArgument

  datatype Result<+T> = Ok(value: T) | Err(problem: Problem)
  {
    predicate IsFailure() { Err? }
    function PropagateFailure<U>(): Result<U>
      requires Err?
    {
      Result.Err(problem)
    }
    function Extract(): T
      requires Ok?
    {
      value
    }
  }

  // ---------- values ----------

  function Coerce(number: string -> Option<real>, config: Config, value: string): Result<Value> {
    match config.kind
    case NumberType =>
      var n := number(value);
      if n.None? then Err(NotANumber)
      else if config.isInt && n.value.Floor as real != n.value then Err(NotAnInteger)
      else if config.minVal.Some? && n.value < config.minVal.value then Err(BelowMinimum)
      else if config.maxVal.Some? && n.value > config.maxVal.value then Err(AboveMaximum)
      else Ok(Number(n.value))
    case BooleanType =>
      if Lower(value) in {"true", "1"} then Ok(Flag(true))
      else if Lower(value) in {"false", "0"} then Ok(Flag(false))
      else Err(NotABoolean)
    case _ =>
      if config.enumVals.Some? && value !in config.enumVals.value then Err(InvalidChoice) else Ok(Text(value))
  }

  /** `v` is what the text says: the number it spells, yes or no, or itself. */
  predicate Says(number: string -> Option<real>, config: Config, text: string, v: Value) {
    match config.kind
    case NumberType => number(text).Some? && v == Number(number(text).value)
    case BooleanType => v == Flag(Lower(text) == "true" || Lower(text) == "1")
    case _ => v == Text(text)
  }

  /** A value is taken exactly if it is of the option's kind and within its bounds, and is stored as what it says. */
  lemma CoerceIff(number: string -> Option<real>, config: Config, text: string)
    ensures config.kind.NumberType? ==>
              (Coerce(number, config, text).Ok? <==>
                 && number(text).Some?
                 && (config.isInt ==> number(text).value == number(text).value.Floor as real)
                 && (config.minVal.Some? ==> config.minVal.value <= number(text).value)
                 && (config.maxVal.Some? ==> number(text).value <= config.maxVal.value))
    ensures config.kind.BooleanType? ==>
              (Coerce(number, config, text).Ok? <==> Lower(text) in ["true", "1", "false", "0"])
    ensures config.kind.StringType? ==>
              (Coerce(number, config, text).Ok? <==> (config.enumVals.Some? ==> text in config.enumVals.value))
    ensures Coerce(number, config, text).Ok? ==> Says(number, config, text, Coerce(number, config, text).value)
  {
  }

  // ---------- flags ----------

  function FlagOf(name: string): string {
    if Starts(name, "-") then name else if |name| > 1 then "--" + name else "-" + name
  }

  function FlagsOf(config: Config): set<string> {
    if config.kind.PositionalType? then {}
    else {FlagOf(config.name)} + set i | 0 <= i < |config.aliases| :: FlagOf(config.aliases[i])
  }

  /** Each flag leads to an option that answers to it. */
  ghost predicate Indexes(table: map<string, string>, all: map<string, Config>) {
    && (forall flag | flag in table :: table[flag] in all && flag in FlagsOf(all[table[flag]]))
    && (forall key | key in all :: forall flag | flag in FlagsOf(all[key]) :: flag in table)
  }

  method BuildTable(all: map<string, Config>) returns (table: map<string, string>)
    ensures Indexes(table, all)
  {
    table := map[];
    var left := all.Keys;
    while left != {}
      invariant left <= all.Keys
      invariant forall flag | flag in table :: table[flag] in all && flag in FlagsOf(all[table[flag]])
      invariant forall key | key in all && key !in left :: forall flag | flag in FlagsOf(all[key]) :: flag in table
      decreases left
    {
      var key :| key in left;
      table := table + map flag | flag in FlagsOf(all[key]) :: key;
      left := left - {key};
    }
  }

  // ---------- tokens ----------

  datatype Context = Context(table: map<string, string>, all: map<string, Config>, number: string -> Option<real>)

  predicate Sound(ctx: Context) {
    forall flag | flag in ctx.table :: ctx.table[flag] in ctx.all
  }

  datatype State = State(options: map<string, Value>, positionals: seq<string>, dashdash: bool, help: bool, version: bool)

  const START := State(map[], [], false, false, false)

  /** A variadic option collects its values; any other keeps the last. */
  function Store(s: State, key: string, config: Config, v: Value): State {
    if config.isVariadic then
      var existing := if key in s.options && s.options[key].List? then s.options[key].items else [];
      s.(options := s.options[key := List(existing + [v])])
    else s.(options := s.options[key := v])
  }

  function IndexOfEquals(arg: string): nat
    requires '=' in arg
    ensures IndexOfEquals(arg) < |arg| && arg[IndexOfEquals(arg)] == '='
  {
    if arg[0] == '=' then 0 else 1 + IndexOfEquals(arg[1..])
  }

  /** The option `--no-x` switches off, if `x` is a boolean option. */
  function Negated(ctx: Context, arg: string): Option<string>
    requires Sound(ctx)
  {
    if Starts(arg, "--no-") && ("--" + arg[5..]) in ctx.table && ctx.all[ctx.table["--" + arg[5..]]].kind.BooleanType?
    then Some(ctx.table["--" + arg[5..]])
    else None
  }

  /** What one token, with the ones after it, does; and how many tokens it takes. */
  function Step(ctx: Context, args: seq<string>, s: State): (r: Result<(State, nat)>)
    requires Sound(ctx) && args != []
    ensures r.Ok? ==> 1 <= r.value.1 <= |args|
  {
    var arg := args[0];
    if arg == "--" then Ok((s.(dashdash := true), 1))
    else if s.dashdash then Ok((s.(positionals := s.positionals + [arg]), 1))
    else if arg in {"--help", "-h"} && "--help" !in ctx.table then Ok((s.(help := true), 1))
    else if arg in {"--version", "-v"} && "--version" !in ctx.table then Ok((s.(version := true), 1))
    else if Negated(ctx, arg).Some? then Ok((s.(options := s.options[Negated(ctx, arg).value := Flag(false)]), 1))
    else if '=' in arg && Starts(arg, "-") then StepAssign(ctx, arg, s)
    else if Starts(arg, "-") then StepFlag(ctx, args, s)
    else Ok((s.(positionals := s.positionals + [arg]), 1))
  }

  /** `--flag=value` */
  function StepAssign(ctx: Context, arg: string, s: State): (r: Result<(State, nat)>)
    requires Sound(ctx) && '=' in arg
    ensures r.Ok? ==> r.value.1 == 1
  {
    var at := IndexOfEquals(arg);
    if arg[..at] !in ctx.table then Err(UnknownOption)
    else
      var key := ctx.table[arg[..at]];
      var v :- Coerce(ctx.number, ctx.all[key], arg[at + 1..]);
      Ok((Store(s, key, ctx.all[key], v), 1))
  }

  /** `--flag` or `--flag value` */
  function StepFlag(ctx: Context, args: seq<string>, s: State): (r: Result<(State, nat)>)
    requires Sound(ctx) && args != []
    ensures r.Ok? ==> 1 <= r.value.1 <= |args|
  {
    if args[0] !in ctx.table then Err(UnknownOption)
    else
      var key := ctx.table[args[0]];
      var config := ctx.all[key];
      if config.kind.BooleanType? then
        if |args| > 1 && Lower(args[1]) in {"true", "1"} then Ok((s.(options := s.options[key := Flag(true)]), 2))
        else if |args| > 1 && Lower(args[1]) in {"false", "0"} then Ok((s.(options := s.options[key := Flag(false)]), 2))
        else Ok((s.(options := s.options[key := Flag(true)]), 1))
      else if |args| == 1 || Starts(args[1], "-") then Err(RequiresValue)
      else
        var v :- Coerce(ctx.number, config, args[1]);
        Ok((Store(s, key, config, v), 2))
  }

  function ParseFrom(ctx: Context, args: seq<string>, s: State): Result<State>
    requires Sound(ctx)
    decreases |args|
  {
    if args == [] then Ok(s)
    else
      var next :- Step(ctx, args, s);
      ParseFrom(ctx, args[next.1..], next.0)
  }

  method ParseTokens(ctx: Context, args: seq<string>) returns (r: Result<State>)
    requires Sound(ctx)
    ensures r == ParseFrom(ctx, args, START)
  {
    hide Step;
    var s := START;
    var i := 0;
    while i < |args|
      invariant 0 <= i <= |args|
      invariant ParseFrom(ctx, args[i..], s) == ParseFrom(ctx, args, START)
    {
      var next := Step(ctx, args[i..], s);
      if next.Err? {
        return Err(next.problem);
      }
      assert args[i..][next.value.1..] == args[i + next.value.1..];
      s := next.value.0;
      i := i + next.value.1;
    }
    return Ok(s);
  }

  // ---------- environment, defaults and checks ----------

  predicate FromEnv(all: map<string, Config>, env: map<string, string>, options: map<string, Value>, key: string) {
    key in all && key !in options && all[key].envVar.Some? && all[key].envVar.value in env
  }

  function EnvValue(number: string -> Option<real>, all: map<string, Config>, env: map<string, string>, key: string): Result<Value>
    requires key in all && all[key].envVar.Some? && all[key].envVar.value in env
  {
    Coerce(number, all[key], env[all[key].envVar.value])
  }

  predicate EnvUsable(number: string -> Option<real>, all: map<string, Config>, env: map<string, string>, options: map<string, Value>) {
    forall key | key in all && FromEnv(all, env, options, key) :: EnvValue(number, all, env, key).Ok?
  }

  /** Unfilled options take their environment variable, or else their default. */
  function Fill(number: string -> Option<real>, all: map<string, Config>, env: map<string, string>, options: map<string, Value>)
    : map<string, Value>
    requires EnvUsable(number, all, env, options)
  {
    var fromEnv := map key | key in all && FromEnv(all, env, options, key) :: EnvValue(number, all, env, key).value;
    var defaults := map key | key in all && key !in options && key !in fromEnv && all[key].default.Some? ::
                      all[key].default.value;
    options + fromEnv + defaults
  }

  /** An option that was not given has its environment variable's value, or else its default, or is absent. */
  predicate Supplied(number: string -> Option<real>, all: map<string, Config>, env: map<string, string>,
                     given: set<string>, options: map<string, Value>)
  {
    && (forall key | key in options :: key in given || key in all)
    && forall key | key in all && key !in given ::
         var config := all[key];
         if config.envVar.Some? && config.envVar.value in env
         then key in options && Says(number, config, env[config.envVar.value], options[key])
         else if config.default.Some? then key in options && options[key] == config.default.value
         else key !in options
  }

  lemma FillSupplies(number: string -> Option<real>, all: map<string, Config>, env: map<string, string>, options: map<string, Value>)
    requires EnvUsable(number, all, env, options)
    ensures Supplied(number, all, env, options.Keys, Fill(number, all, env, options))
    ensures forall key | key in options :: key in Fill(number, all, env, options) && Fill(number, all, env, options)[key] == options[key]
  {
    hide Coerce; hide Says;
    var filled := Fill(number, all, env, options);
    forall key | key in all && key !in options
      ensures var config := all[key];
              if config.envVar.Some? && config.envVar.value in env
              then key in filled && Says(number, config, env[config.envVar.value], filled[key])
              else if config.default.Some? then key in filled && filled[key] == config.default.value
              else key !in filled
    {
      if FromEnv(all, env, options, key) {
        CoerceIff(number, all[key], env[all[key].envVar.value]);
        assert EnvValue(number, all, env, key).Ok?;
      }
    }
  }

  predicate Missing(options: map<string, Value>, key: string, config: Config) {
    key !in options || (config.isVariadic && options[key] == List([]))
  }

  predicate RequiredPresent(all: map<string, Config>, options: map<string, Value>) {
    forall key | key in all && !all[key].kind.PositionalType? && all[key].isRequired :: !Missing(options, key, all[key])
  }

  predicate ConflictFree(all: map<string, Config>, options: map<string, Value>) {
    forall key | key in all && key in options :: forall other | other in all[key].conflictsWith :: other !in options
  }

  function Finish(ctx: Context, env: map<string, string>, s: State): Result<State> {
    if !EnvUsable(ctx.number, ctx.all, env, s.options) then Err(InvalidChoice)
    else
      var options := Fill(ctx.number, ctx.all, env, s.options);
      if !RequiredPresent(ctx.all, options) then Err(MissingOption)
      else if !ConflictFree(ctx.all, options) then Err(ConflictingOptions)
      else Ok(s.(options := options))
  }

  function Parsed(ctx: Context, env: map<string, string>, args: seq<string>): Result<State>
    requires Sound(ctx)
  {
    var s :- ParseFrom(ctx, args, START);
    Finish(ctx, env, s)
  }

  method ParseArgv(args: seq<string>, all: map<string, Config>, number: string -> Option<real>, env: map<string, string>)
    returns (r: Result<State>, table: map<string, string>)
    ensures Indexes(table, all)
    ensures r == Parsed(Context(table, all, number), env, args)
    ensures r.Ok? ==>
              forall key | key in all ::
                && (all[key].isRequired && !all[key].kind.PositionalType? ==>
                      key in r.value.options && (all[key].isVariadic ==> r.value.options[key] != List([])))
                && (key in r.value.options ==> forall other | other in all[key].conflictsWith :: other !in r.value.options)
  {
    table := BuildTable(all);
    var ctx := Context(table, all, number);
    var tokens := ParseTokens(ctx, args);
    if tokens.Err? {
      return Err(tokens.problem), table;
    }
    r := Finish(ctx, env, tokens.value);
  }
}
