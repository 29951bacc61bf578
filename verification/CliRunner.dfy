/** From an argument list to the command that runs: splitting, dispatch, positional assignment. */
module CliRunner {
  import opened Wrappers
  import opened Text
  import opened CliParser
  import opened CliForm
  import opened CliRouter

  datatype Cli = Cli(
    groups: seq<CliGroup>, commands: seq<CliCommand>, globals: map<string, Config>,
    number: string -> Option<real>, env: map<string, string>)

  // ---------- global flags ----------

  function NamesOf(config: Config): set<string> {
    {config.name} + set i | 0 <= i < |config.aliases| :: config.aliases[i]
  }

  ghost predicate IndexesGlobals(byName: map<string, Config>, globals: map<string, Config>) {
    && (forall name | name in byName :: exists key | key in globals :: byName[name] == globals[key] && name in NamesOf(globals[key]))
    && (forall key | key in globals :: NamesOf(globals[key]) <= byName.Keys)
  }

  method IndexGlobals(globals: map<string, Config>) returns (byName: map<string, Config>)
    ensures IndexesGlobals(byName, globals)
  {
    byName := map[];
    var left := globals.Keys;
    while left != {}
      invariant left <= globals.Keys
      invariant forall name | name in byName ::
                  exists key | key in globals :: byName[name] == globals[key] && name in NamesOf(globals[key])
      invariant forall key | key in globals && key !in left :: NamesOf(globals[key]) <= byName.Keys
      decreases left
    {
      var key :| key in left;
      byName := byName + map name | name in NamesOf(globals[key]) :: globals[key];
      left := left - {key};
    }
  }

  /** The flag's bare name, without dashes or an assigned value. */
  function FlagName(arg: string): string
    requires Starts(arg, "-")
  {
    if Starts(arg, "--") then
      if '=' in arg then
        var at := IndexOfEquals(arg);
        assert arg[0] == '-' == arg[1];
        arg[2..at]
      else arg[2..]
    else arg[1..]
  }

  /** How many tokens a global flag takes. */
  function Width(config: Config, args: seq<string>): (n: nat)
    requires args != []
    ensures 1 <= n <= |args|
  {
    if !config.kind.BooleanType? && !(Starts(args[0], "--") && '=' in args[0]) && |args| > 1 then 2 else 1
  }

  /** The tokens to route by, and those passed on to the command's parser. */
  function SplitArgs(byName: map<string, Config>, args: seq<string>): (seq<string>, seq<string>)
    decreases |args|
  {
    if args == [] then ([], [])
    else if !Starts(args[0], "-") then
      var rest := SplitArgs(byName, args[1..]);
      ([args[0]] + rest.0, rest.1)
    else if FlagName(args[0]) in byName then
      var n := Width(byName[FlagName(args[0])], args);
      var rest := SplitArgs(byName, args[n..]);
      (rest.0, args[..n] + rest.1)
    else ([], args)
  }

  method SplitArgsForRouting(args: seq<string>, byName: map<string, Config>)
    returns (segments: seq<string>, passthrough: seq<string>)
    ensures (segments, passthrough) == SplitArgs(byName, args)
  {
    hide FlagName, Starts, Width;
    segments, passthrough := [], [];
    var i := 0;
    BehindNothing(SplitArgs(byName, args));
    assert args[0..] == args;
    while i < |args|
      invariant 0 <= i <= |args|
      invariant SplitArgs(byName, args) == Behind(segments, passthrough, SplitArgs(byName, args[i..]))
      decreases |args| - i
    {
      var here := args[i..];
      assert here[0] == args[i] && here[1..] == args[i + 1..];
      if !Starts(args[i], "-") {
        BehindMore(segments, passthrough, [args[i]], [], SplitArgs(byName, here[1..]));
        segments := segments + [args[i]];
        i := i + 1;
      } else if FlagName(args[i]) in byName {
        var n := Width(byName[FlagName(args[i])], here);
        assert here[n..] == args[i + n..];
        BehindMore(segments, passthrough, [], here[..n], SplitArgs(byName, here[n..]));
        passthrough := passthrough + here[..n];
        i := i + n;
      } else {
        assert segments + [] == segments;
        passthrough := passthrough + here;
        return;
      }
    }
    assert segments + [] == segments && passthrough + [] == passthrough;
  }

  /** The tokens split off so far, in front of the split of the rest. */
  function Behind(segments: seq<string>, passthrough: seq<string>, rest: (seq<string>, seq<string>)): (seq<string>, seq<string>) {
    (segments + rest.0, passthrough + rest.1)
  }

  lemma BehindNothing(rest: (seq<string>, seq<string>))
    ensures Behind([], [], rest) == rest
  {
    assert [] + rest.0 == rest.0 && [] + rest.1 == rest.1;
  }

  lemma BehindMore(segments: seq<string>, passthrough: seq<string>, s: seq<string>, p: seq<string>, rest: (seq<string>, seq<string>))
    ensures Behind(segments, passthrough, Behind(s, p, rest)) == Behind(segments + s, passthrough + p, rest)
    ensures Behind(s, [], rest) == (s + rest.0, rest.1) && Behind([], p, rest) == (rest.0, p + rest.1)
    ensures segments + [] == segments && passthrough + [] == passthrough
  {
    assert [] + rest.0 == rest.0 && [] + rest.1 == rest.1;
    assert segments + (s + rest.0) == (segments + s) + rest.0 && passthrough + (p + rest.1) == (passthrough + p) + rest.1;
  }

  // ---------- dispatch ----------

  datatype Dispatch =
    | ShowHelp(path: seq<string>) | ShowVersion | Reject(problem: Problem)
    | Call(path: seq<string>, command: CommandConfig, remaining: seq<string>)

  function WithoutHelp(args: seq<string>): seq<string> {
    if args == [] then []
    else WithoutHelp(args[..|args| - 1]) + if args[|args| - 1] in {"--help", "-h"} then [] else [args[|args| - 1]]
  }

  function Dispatched(root: Node, commandMap: map<string, CommandConfig>, byName: map<string, Config>, args: seq<string>)
    : Dispatch
  {
    if args == [] || "--help" in args || "-h" in args then
      var routed := Route(root, SplitArgs(byName, WithoutHelp(args)).0);
      if routed.Err? then Reject(routed.problem) else ShowHelp(routed.value.0)
    else
      var split := SplitArgs(byName, args);
      var routed := Route(root, split.0);
      if routed.Err? then Reject(routed.problem)
      else
        var (path, unrouted) := routed.value;
        if path == [] then if "--version" in args || "-v" in args then ShowVersion else ShowHelp([])
        else if Join(path) !in commandMap then ShowHelp(path)
        else Call(path, commandMap[Join(path)], unrouted + split.1)
  }

  // ---------- positionals ----------

  datatype ArgValue = Absent | One(text: string) | Many(items: seq<string>)

  function ArgName(arg: Arg, i: nat): string {
    arg.title.GetOr("arg" + Decimal(i))
  }

  function From(positionals: seq<string>, i: nat): seq<string> {
    if i <= |positionals| then positionals[i..] else []
  }

  function Assign(args: seq<Arg>, positionals: seq<string>, i: nat, done: map<string, ArgValue>): Result<map<string, ArgValue>>
    requires i <= |args|
    decreases |args| - i
  {
    if i == |args| then if |positionals| > i then Err(UnexpectedArgument) else Ok(done)
    else
      var config := args[i].config;
      var name := ArgName(args[i], i);
      if config.isVariadic then
        if config.isRequired && From(positionals, i) == [] then Err(MissingArgument)
        else Ok(done[name := Many(From(positionals, i))])
      else if config.isRequired && i >= |positionals| then Err(MissingArgument)
      else Assign(args, positionals, i + 1, done[name := if i < |positionals| then One(positionals[i]) else Absent])
  }

  method AssignPositionals(args: seq<Arg>, positionals: seq<string>) returns (r: Result<map<string, ArgValue>>)
    ensures r == Assign(args, positionals, 0, map[])
  {
    hide ArgName;
    var argsResult: map<string, ArgValue> := map[];
    var posIdx := 0;
    while posIdx < |args|
      invariant 0 <= posIdx <= |args|
      invariant Assign(args, positionals, posIdx, argsResult) == Assign(args, positionals, 0, map[])
    {
      var config := args[posIdx].config;
      var name := ArgName(args[posIdx], posIdx);
      if config.isVariadic {
        var items := From(positionals, posIdx);
        if config.isRequired && items == [] {
          return Err(MissingArgument);
        }
        return Ok(argsResult[name := Many(items)]);
      }
      if config.isRequired && posIdx >= |positionals| {
        return Err(MissingArgument);
      }
      argsResult := argsResult[name := if posIdx < |positionals| then One(positionals[posIdx]) else Absent];
      posIdx := posIdx + 1;
    }
    if |positionals| > posIdx {
      return Err(UnexpectedArgument);
    }
    return Ok(argsResult);
  }

  // ---------- execution ----------

  datatype Outcome =
    | Help(path: seq<string>) | Version | Failed(problem: Problem)
    | Ran(path: seq<string>, options: map<string, Value>, args: map<string, ArgValue>)

  function OptionMap(options: seq<(string, Config)>): map<string, Config> {
    if options == [] then map[] else OptionMap(options[..|options| - 1])[options[|options| - 1].0 := options[|options| - 1].1]
  }

  function AllOptions(cli: Cli, command: CommandConfig): map<string, Config> {
    cli.globals + OptionMap(command.options)
  }

  /** A command without declared positionals ignores any. */
  function Concluded(path: seq<string>, command: CommandConfig, parsed: Result<State>): Outcome {
    if parsed.Err? then Failed(parsed.problem)
    else if parsed.value.help then Help(path)
    else if command.args.None? then Ran(path, parsed.value.options, map[])
    else
      var placed := Assign(command.args.value, parsed.value.positionals, 0, map[]);
      if placed.Err? then Failed(placed.problem) else Ran(path, parsed.value.options, placed.value)
  }

  ghost predicate Executes(cli: Cli, args: seq<string>, byName: map<string, Config>, table: map<string, string>, outcome: Outcome) {
    var root := InsertAll(ROOT, Entries(cli.groups, cli.commands));
    var d := Dispatched(root, CommandMap(cli.commands), byName, args);
    && IndexesGlobals(byName, cli.globals)
    && (d.ShowHelp? ==> outcome == Help(d.path))
    && (d.ShowVersion? ==> outcome == Version)
    && (d.Reject? ==> outcome == Failed(d.problem))
    && (d.Call? ==>
          var all := AllOptions(cli, d.command);
          && Indexes(table, all)
          && outcome == Concluded(d.path, d.command, Parsed(Context(table, all, cli.number), cli.env, d.remaining)))
  }

  method Execute(cli: Cli, args: seq<string>)
    returns (outcome: Outcome, byName: map<string, Config>, table: map<string, string>)
    ensures Executes(cli, args, byName, table, outcome)
  {
    hide Entries, InsertAll, Indexes, IndexesGlobals, Parsed, Join, Assign, SplitArgs, Route;
    byName := IndexGlobals(cli.globals);
    table := map[];
    var root, commandMap := BuildTree(cli.groups, cli.commands);
    if |args| == 0 || "--help" in args || "-h" in args {
      var shown, _ := SplitArgsForRouting(WithoutHelp(args), byName);
      var at := RouteCommand(root, shown);
      outcome := if at.Err? then Failed(at.problem) else Help(at.value.0);
      return;
    }
    var segments, passthrough := SplitArgsForRouting(args, byName);
    var routed := RouteCommand(root, segments);
    if routed.Err? {
      outcome := Failed(routed.problem);
      return;
    }
    var (commandPath, unrouted) := routed.value;
    if commandPath == [] {
      outcome := if "--version" in args || "-v" in args then Version else Help([]);
      return;
    }
    if Join(commandPath) !in commandMap {
      outcome := Help(commandPath);
      return;
    }
    var command := commandMap[Join(commandPath)];
    var parsed;
    parsed, table := ParseArgv(unrouted + passthrough, AllOptions(cli, command), cli.number, cli.env);
    if parsed.Err? {
      outcome := Failed(parsed.problem);
    } else if parsed.value.help {
      outcome := Help(commandPath);
    } else if command.args.None? {
      outcome := Ran(commandPath, parsed.value.options, map[]);
    } else {
      var placed := AssignPositionals(command.args.value, parsed.value.positionals);
      outcome := if placed.Err? then Failed(placed.problem) else Ran(commandPath, parsed.value.options, placed.value);
    }
  }
}
