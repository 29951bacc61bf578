/** What a command line leads to, case by case: routing, global flags, help, version and positionals. */
module CliDispatch {
  import opened Wrappers
  import opened Text
  import opened CliParser
  import opened CliForm
  import opened CliRouter
  import opened CliRunner
  import opened CliRoundTrip

  // ---------- routing ----------

  predicate Answering(child: Node, token: string) {
    token == child.name || token in child.aliases
  }

  /** The tokens walk from `node` down the path of these names to `end`. */
  ghost predicate Walks(node: Node, tokens: seq<string>, path: seq<string>, end: Node)
    decreases |path|
  {
    && |tokens| == |path|
    && if path == [] then node == end
       else exists k | 0 <= k < |node.children| ::
         && node.children[k].name == path[0] && Answering(node.children[k], tokens[0])
         && Walks(node.children[k], tokens[1..], path[1..], end)
  }

  /** Routing stops at the end of the line, at a flag, and below a command without subcommands. */
  predicate Stops(node: Node, rest: seq<string>) {
    rest == [] || Starts(rest[0], "-") || node.children == []
  }

  /** There are subcommands, and the next token names none of them. */
  predicate Unknown(node: Node, rest: seq<string>) {
    && rest != [] && !Starts(rest[0], "-") && node.children != []
    && forall c | c in node.children :: !Answering(c, rest[0])
  }

  /** Routing goes as far down as the tokens name a child, and refuses a token that names none of several. */
  lemma {:induction false} RouteEnds(node: Node, args: seq<string>) returns (path: seq<string>, end: Node)
    ensures |path| <= |args| && Walks(node, args[..|path|], path, end)
    ensures var rest := args[|path|..];
            && (Stops(end, rest) || Unknown(end, rest))
            && (Route(node, args).Ok? <==> Stops(end, rest))
            && Route(node, args) == if Stops(end, rest) then Ok((path, rest)) else Err(UnknownCommand)
    decreases |args|
  {
    path, end := [], node;
    assert args[0..] == args;
    if args != [] && !Starts(args[0], "-") {
      var k := Match(node.children, args[0]);
      if k < |node.children| {
        var child := node.children[k];
        var below;
        below, end := RouteEnds(child, args[1..]);
        path := [child.name] + below;
        assert path[1..] == below && args[..|path|][1..] == args[1..][..|below|] && args[|path|..] == args[1..][|below|..];
        assert args[..|path|][0] == args[0];
      }
    }
  }

  // ---------- global flags ----------

  lemma {:induction false} SplitKeepsAll(byName: map<string, Config>, args: seq<string>)
    ensures var (segments, passthrough) := SplitArgs(byName, args);
            && multiset(segments) + multiset(passthrough) == multiset(args)
            && forall t | t in segments :: !Starts(t, "-")
    decreases |args|
  {
    hide FlagName, Starts, Width;
    if args != [] {
      assert args == [args[0]] + args[1..];
      if !Starts(args[0], "-") {
        SplitKeepsAll(byName, args[1..]);
      } else if FlagName(args[0]) in byName {
        var n := Width(byName[FlagName(args[0])], args);
        SplitKeepsAll(byName, args[n..]);
        assert args == args[..n] + args[n..];
      }
    }
  }

  lemma FlagNames(name: string, value: string)
    requires '=' !in name
    ensures Starts("--" + name, "-") && FlagName("--" + name) == name
    ensures Starts("--" + name + "=" + value, "-") && FlagName("--" + name + "=" + value) == name
    ensures !Starts(name, "-") ==> Starts("-" + name, "-") && FlagName("-" + name) == name
  {
    hide IndexOfEquals;
    NameOfFlag(name);
    var arg := "--" + name + "=" + value;
    EqualsAfter("--" + name, value);
    assert arg == "--" + name + "=" + value && arg[2..|name| + 2] == name && arg[..1] == "-" && arg[..2] == "--";
    var short := "-" + name;
    assert short[1..] == name && short[..1] == "-";
    assert name != "" && Starts(short, "--") ==> name[..1] == short[1..2] == "-";
  }

  lemma {:induction false} EqualsAfter(front: string, value: string)
    requires '=' !in front
    ensures '=' in front + "=" + value && IndexOfEquals(front + "=" + value) == |front|
  {
    var arg := front + "=" + value;
    assert arg[|front|] == '=';
    if front != [] {
      assert arg[0] == front[0] && arg[1..] == front[1..] + "=" + value;
      EqualsAfter(front[1..], value);
    }
  }

  /** A global flag in front of a command does not stop routing, and reaches the command's parser with its value. */
  lemma LeadingGlobal(cli: Cli, path: seq<string>, command: CommandConfig, byName: map<string, Config>, flag: string, value: string)
    requires Leaf(cli, path, command) && Starts(flag, "-") && FlagName(flag) in byName && '=' !in flag
    requires Helpless([flag, value])
    ensures byName[FlagName(flag)].kind.BooleanType? ==>
              Dispatched(Root(cli), CommandMap(cli.commands), byName, [flag] + path) == Call(path, command, [flag])
    ensures !byName[FlagName(flag)].kind.BooleanType? ==>
              Dispatched(Root(cli), CommandMap(cli.commands), byName, [flag, value] + path) == Call(path, command, [flag, value])
  {
    hide FlagName, Join, At;
    PlainIsHelpless(path);
    SplitPlain(byName, path);
    PathRoutes(Root(cli), path, []);
    assert path + [] == path;
    if byName[FlagName(flag)].kind.BooleanType? {
      var args := [flag] + path;
      assert args[1..] == path && args[..1] == [flag] && [flag] + [] == [flag];
    } else {
      var args := [flag, value] + path;
      assert args[2..] == path && args[..2] == [flag, value] && [flag, value] + [] == [flag, value];
    }
  }

  lemma SplitPlain(byName: map<string, Config>, plain: seq<string>)
    requires Plain(plain)
    ensures SplitArgs(byName, plain) == (plain, [])
  {
    assert plain + [] == plain;
    SplitPrinted(byName, plain, []);
  }

  // ---------- help, version and unknown commands ----------

  /** The whole program's version is shown for a bare flag. */
  lemma VersionShown(root: Node, commandMap: map<string, CommandConfig>, byName: map<string, Config>, flag: string)
    requires flag in {"--version", "-v"}
    ensures Dispatched(root, commandMap, byName, [flag]) == ShowVersion
  {
    assert "--version"[0] == '-' && "-v"[0] == '-';
    assert Starts(flag, "-");
    assert [flag][1..] == [] && flag !in {"--help", "-h"};
    assert "--help"[2] == 'h' && "--version"[2] == 'v';
    assert SplitArgs(byName, [flag]).0 == [] by {
      hide FlagName;
      assert SplitArgs(byName, []) == ([], []);
    }
  }

  /** A path of names with a help flag, or one that is no command, shows the help of that node. */
  lemma HelpShown(cli: Cli, path: seq<string>, byName: map<string, Config>, flag: string)
    requires At(Root(cli), path).Some? && At(Root(cli), path).value.children == [] && Plain(path) && path != []
    requires flag in {"--help", "-h"}
    ensures Dispatched(Root(cli), CommandMap(cli.commands), byName, path + [flag]) == ShowHelp(path)
    ensures Join(path) !in CommandMap(cli.commands) ==>
              Dispatched(Root(cli), CommandMap(cli.commands), byName, path) == ShowHelp(path)
  {
    hide Join, At, CommandMap, InsertAll;
    assert (path + [flag])[|path|] == flag;
    PlainIsHelpless(path);
    SplitPlain(byName, path);
    PathRoutes(Root(cli), path, []);
    assert path + [] == path;
    WithoutHelpKeeps(path, flag);
  }

  lemma WithoutHelpKeeps(plain: seq<string>, flag: string)
    requires Helpless(plain) && flag in {"--help", "-h"}
    ensures WithoutHelp(plain) == plain && WithoutHelp(plain + [flag]) == plain
  {
    KeptWithout(plain);
    var all := plain + [flag];
    assert all[..|all| - 1] == plain && all[|all| - 1] == flag;
    assert plain + [] == plain;
  }

  lemma {:induction false} KeptWithout(plain: seq<string>)
    requires Helpless(plain)
    ensures WithoutHelp(plain) == plain
  {
    if plain != [] {
      var n := |plain| - 1;
      assert forall t | t in plain[..n] :: t in plain;
      KeptWithout(plain[..n]);
      assert plain[n] in plain;
      assert plain[n] != "--help" && plain[n] != "-h";
      assert plain == plain[..n] + [plain[n]];
    }
  }

  /** A line whose first word is no command and no group is refused. */
  lemma UnknownRefused(root: Node, commandMap: map<string, CommandConfig>, byName: map<string, Config>, words: seq<string>)
    requires Plain(words) && Unknown(root, words)
    ensures Dispatched(root, commandMap, byName, words) == Reject(UnknownCommand)
  {
    hide SplitArgs, Join;
    PlainIsHelpless(words);
    SplitPlain(byName, words);
    var k := Match(root.children, words[0]);
    assert k < |root.children| ==> root.children[k] in root.children && Answering(root.children[k], words[0]);
    assert Route(root, words) == Err(UnknownCommand);
  }

  // ---------- a command's options and positionals ----------

  /** Every command takes the global options, unless it declares its own under the same key. */
  lemma OptionsOfCommand(cli: Cli, command: CommandConfig)
    requires forall i, j | 0 <= i < j < |command.options| :: command.options[i].0 != command.options[j].0
    ensures forall i | 0 <= i < |command.options| ::
              var (key, config) := command.options[i]; key in AllOptions(cli, command) && AllOptions(cli, command)[key] == config
    ensures forall key | key in cli.globals && (forall i | 0 <= i < |command.options| :: command.options[i].0 != key) ::
              key in AllOptions(cli, command) && AllOptions(cli, command)[key] == cli.globals[key]
  {
    forall i | 0 <= i < |command.options|
      ensures var (key, config) := command.options[i]; key in AllOptions(cli, command) && AllOptions(cli, command)[key] == config
    {
      OptionMapHas(command.options, command.options[i]);
    }
    OptionMapOnly(command.options);
  }

  lemma {:induction false} OptionMapOnly(options: seq<(string, Config)>)
    ensures forall key | key in OptionMap(options) :: exists i | 0 <= i < |options| :: options[i].0 == key
  {
    if options != [] {
      OptionMapOnly(options[..|options| - 1]);
    }
  }

  function WithoutDashes(tokens: seq<string>): (r: seq<string>)
    ensures |r| <= |tokens|
    ensures r == tokens <==> "--" !in tokens
  {
    if tokens == [] then []
    else
      var rest := WithoutDashes(tokens[1..]);
      assert tokens == [tokens[0]] + tokens[1..];
      if tokens[0] == "--" then rest else [tokens[0]] + rest
  }

  /** Behind `--` every token is a positional, whatever it looks like; only a further `--` is dropped. */
  lemma {:induction false} BehindDashes(ctx: Context, rest: seq<string>, s: State)
    requires Sound(ctx) && s.dashdash
    ensures ParseFrom(ctx, rest, s) == Ok(s.(positionals := s.positionals + WithoutDashes(rest)))
    decreases |rest|
  {
    hide Step, ParseFrom, WithoutDashes;
    ParseNone(ctx, s);
    if rest == [] {
      assert s.positionals + [] == s.positionals;
    } else {
      StepBehindDashes(ctx, rest, s);
      var next := if rest[0] == "--" then s else s.(positionals := s.positionals + [rest[0]]);
      ParseOn(ctx, rest, s, next);
      BehindDashes(ctx, rest[1..], next);
      assert s.positionals + ([rest[0]] + WithoutDashes(rest[1..])) == s.positionals + [rest[0]] + WithoutDashes(rest[1..]);
      OneWithout(rest);
    }
  }

  lemma ParseNone(ctx: Context, s: State)
    requires Sound(ctx)
    ensures ParseFrom(ctx, [], s) == Ok(s) && WithoutDashes([]) == []
  {
  }

  lemma OneWithout(tokens: seq<string>)
    requires tokens != []
    ensures WithoutDashes(tokens) == if tokens[0] == "--" then WithoutDashes(tokens[1..]) else [tokens[0]] + WithoutDashes(tokens[1..])
  {
  }

  lemma ParseOn(ctx: Context, args: seq<string>, s: State, next: State)
    requires Sound(ctx) && args != [] && Step(ctx, args, s) == Ok((next, 1))
    ensures ParseFrom(ctx, args, s) == ParseFrom(ctx, args[1..], next)
  {
    hide Step;
  }

  lemma StepBehindDashes(ctx: Context, rest: seq<string>, s: State)
    requires Sound(ctx) && s.dashdash && rest != []
    ensures Step(ctx, rest, s) == Ok((if rest[0] == "--" then s else s.(positionals := s.positionals + [rest[0]]), 1))
  {
    assert s.(dashdash := true) == s;
  }

  function FirstVariadic(args: seq<Arg>, i: nat): (k: nat)
    requires i <= |args|
    ensures i <= k <= |args| && (k < |args| ==> args[k].config.isVariadic)
    ensures forall j | i <= j < k :: !args[j].config.isVariadic
    decreases |args| - i
  {
    if i == |args| || args[i].config.isVariadic then i else FirstVariadic(args, i + 1)
  }

  /** A line is refused exactly for a required positional that is missing, or a token that no positional takes. */
  lemma {:induction false} AssignIff(args: seq<Arg>, tokens: seq<string>, i: nat, done: map<string, ArgValue>)
    requires i <= |args|
    ensures var last, r := FirstVariadic(args, i), Assign(args, tokens, i, done);
            && (r.Ok? <==>
                  && (forall j | i <= j <= last && j < |args| && args[j].config.isRequired :: j < |tokens|)
                  && (last == |args| ==> |tokens| <= |args|))
            && (r == Err(MissingArgument) <==>
                  exists j | i <= j <= last && j < |args| :: args[j].config.isRequired && j >= |tokens|)
    decreases |args| - i
  {
    hide ArgName;
    if i < |args| && !args[i].config.isVariadic && !(args[i].config.isRequired && i >= |tokens|) {
      AssignIff(args, tokens, i + 1, done[ArgName(args[i], i) := if i < |tokens| then One(tokens[i]) else Absent]);
    }
  }
}
