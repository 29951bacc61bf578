/** Exactly when a printed option is read back, and which registered commands are leaves. */
module CliLimits {
  import opened Wrappers
  import opened Text
  import opened CliParser
  import opened CliForm
  import opened CliRouter
  import opened CliRunner
  import opened CliOptions
  import opened CliRoundTrip

  /** A command line naming `--help` or `-h` never runs a command: an option of that name cannot be filled in. */
  lemma HelpNeverRuns(cli: Cli, args: seq<string>, byName: map<string, Config>, table: map<string, string>, outcome: Outcome)
    requires Executes(cli, args, byName, table, outcome) && !Helpless(args)
    ensures outcome.Help? || outcome.Failed?
  {
    hide InsertAll, Entries, Route, SplitArgs, CommandMap, Join, At, IndexesGlobals, Indexes, Parsed, AllOptions, Concluded;
    assert args != [];
  }

  /** A printed value is read back exactly when it does not look like a flag and suits the option. */
  lemma ValueReadBack(ctx: Context, key: string, config: Config, args: seq<string>, s: State)
    requires Answers(ctx, key, config) && !config.kind.BooleanType? && !s.dashdash
    requires |args| > 1 && args[0] == "--" + config.name && args[1] != ""
    ensures Step(ctx, args, s).Ok? <==> TokenFits(ctx.number, config, args[1])
    ensures Step(ctx, args, s).Ok? ==> Step(ctx, args, s) == Ok((Store(s, key, config, Coerce(ctx.number, config, args[1]).value), 2))
  {
    hide Coerce, Store;
    ReadAsFlag(ctx, key, config, args, s);
  }

  /** A printed name is read back exactly when it holds no `=` and is not some boolean option's negation. */
  lemma NameReadBack(ctx: Context, key: string, config: Config, args: seq<string>, s: State)
    requires Sound(ctx) && key in ctx.all && ctx.all[key] == config && !config.kind.BooleanType? && !s.dashdash
    requires |config.name| > 1 && !Starts(config.name, "-")
    requires "--" + config.name in ctx.table && ctx.table["--" + config.name] == key
    requires |args| > 1 && args[0] == "--" + config.name && TokenFits(ctx.number, config, args[1])
    ensures Step(ctx, args, s) == Ok((Store(s, key, config, Coerce(ctx.number, config, args[1]).value), 2))
       <==> '=' !in config.name && Negated(ctx, "--" + config.name).None?
  {
    hide Coerce, Store, Negated;
    var arg := args[0];
    assert arg[2..] == config.name && Starts(arg, "-") && arg != "--";
    assert "--help"[2..] == "help" && "--version"[2..] == "version" && |"-h"| == 2 && |"-v"| == 2;
    assert '=' in arg <==> '=' in config.name by {
      assert forall i | 2 <= i < |arg| :: arg[i] == config.name[i - 2];
      assert forall c | c in config.name :: c in arg[2..];
    }
  }

  /** A printed positional is read back exactly when it does not begin with a dash. */
  lemma PositionalReadBack(ctx: Context, args: seq<string>, s: State)
    requires Sound(ctx) && args != [] && !s.dashdash
    ensures Step(ctx, args, s) == Ok((s.(positionals := s.positionals + [args[0]]), 1)) <==> !Starts(args[0], "-")
  {
    hide Coerce;
    var arg := args[0];
    assert |s.positionals + [arg]| != |s.positionals|;
    assert Starts("--help", "-") && Starts("-h", "-") && Starts("--version", "-") && Starts("-v", "-") && Starts("--", "-");
    assert Starts(arg, "--no-") ==> arg[0] == "--no-"[0];
  }

  /** A negative number suits the form's field for a numeric positional, and its printed token is then refused. */
  lemma NegativeNumberRefused(ctx: Context, arg: Arg, token: string, rest: seq<string>, s: State)
    requires Sound(ctx) && !s.dashdash && arg.config.kind.NumberType? && arg.config.enumVals.GetOr([]) == []
    requires |token| > 1 && token[0] == '-' && '0' <= token[1] <= '9' && '=' !in token && token !in ctx.table
    requires ctx.number(token).Some? && Trim(token) == token
    ensures Admissible(ctx.number, FieldOfArg(arg), Typed(token))
    ensures Step(ctx, [token] + rest, s) == Err(UnknownOption)
  {
    var args := [token] + rest;
    assert args[0] == token && "--help"[1] == '-' && "-h"[1] == 'h' && "--version"[1] == '-' && "-v"[1] == 'v' && "--no-"[1] == '-';
    assert Starts(token, "-");
  }

  /** The name of a boolean option, which nothing follows but flags, has not been entered yet. */
  predicate PrintedFlag(ctx: Context, key: string, config: Config, args: seq<string>, s: State)
    requires Sound(ctx)
  {
    && key in ctx.all && ctx.all[key] == config && config.kind.BooleanType? && config.name != "" && !s.dashdash
    && "--" + config.name in ctx.table && ctx.table["--" + config.name] == key
    && key !in s.options && (|args| > 1 ==> Starts(args[1], "-"))
  }

  /** A name holding `=` reads as an assignment of true to the same option. */
  predicate AssignsTrue(ctx: Context, key: string, config: Config, arg: string)
    requires Sound(ctx) && '=' in arg
  {
    var at := IndexOfEquals(arg);
    && arg[..at] in ctx.table && ctx.table[arg[..at]] == key
    && Coerce(ctx.number, config, arg[at + 1..]) == Ok(Flag(true)) && !config.isVariadic
  }

  /**
   * A boolean option answered yes is read back exactly when its name is no boolean option's negation and,
   * if it holds `=`, happens to assign true to itself.
   */
  lemma YesReadBack(ctx: Context, key: string, config: Config, args: seq<string>, s: State)
    requires Sound(ctx) && PrintedFlag(ctx, key, config, args, s) && args != [] && args[0] == "--" + config.name
    ensures Step(ctx, args, s) == Ok((s.(options := s.options[key := Flag(true)]), 1))
       <==> Negated(ctx, args[0]).None? && ('=' in config.name ==> '=' in args[0] && AssignsTrue(ctx, key, config, args[0]))
  {
    hide Coerce, Negated;
    var arg := args[0];
    EqualsInFlag(config.name);
    assert arg[2..] == config.name && Starts(arg, "-") && arg != "--" && "--help"[2..] == "help" && |"-h"| == 2 && |"-v"| == 2;
    var expected := s.options[key := Flag(true)];
    if Negated(ctx, arg).Some? {
      assert s.options[Negated(ctx, arg).value := Flag(false)] != expected by {
        assert expected[key] == Flag(true);
      }
    } else if '=' in config.name {
      AssignReadBack(ctx, key, config, arg, s);
    } else if |args| > 1 {
      assert args[1][0] == "-"[0] && Lower(args[1])[0] == '-';
    }
  }

  lemma EqualsInFlag(name: string)
    ensures '=' in "--" + name <==> '=' in name
  {
    assert ("--" + name)[2..] == name;
    assert forall c | c in name :: c in ("--" + name)[2..];
    assert forall i | 2 <= i < |"--" + name| :: ("--" + name)[i] == name[i - 2];
  }

  lemma AssignReadBack(ctx: Context, key: string, config: Config, arg: string, s: State)
    requires Sound(ctx) && '=' in arg && key in ctx.all && ctx.all[key] == config && key !in s.options
    ensures StepAssign(ctx, arg, s) == Ok((s.(options := s.options[key := Flag(true)]), 1)) <==> AssignsTrue(ctx, key, config, arg)
  {
    hide Coerce;
    var at := IndexOfEquals(arg);
    var expected := s.options[key := Flag(true)];
    if arg[..at] in ctx.table && StepAssign(ctx, arg, s).Ok? {
      var other := ctx.table[arg[..at]];
      var stored := Store(s, other, ctx.all[other], Coerce(ctx.number, ctx.all[other], arg[at + 1..]).value).options;
      assert key in expected && expected[key] == Flag(true);
      assert other != key ==> key !in stored;
    }
  }

  /** A boolean option answered no is always read back, whatever its name. */
  lemma NoReadBack(ctx: Context, key: string, config: Config, args: seq<string>, s: State)
    requires Sound(ctx) && PrintedFlag(ctx, key, config, args, s) && args != [] && args[0] == "--no-" + config.name
    ensures Step(ctx, args, s) == Ok((s.(options := s.options[key := Flag(false)]), 1))
  {
    hide StepFlag, StepAssign;
    var arg := args[0];
    assert arg[5..] == config.name && Starts(arg, "--no-") && arg[2] == 'n';
    assert "--help"[2] == 'h' && |"--version"| == 9 && "--version"[2] == 'v' && |"-h"| == 2 && |"-v"| == 2;
  }

  lemma {:induction false} EqualsAt(name: string, text: string, front: string)
    requires '=' !in front && '=' !in name
    ensures '=' in front + name + "=" + text && IndexOfEquals(front + name + "=" + text) == |front| + |name|
    decreases |front| + |name|
  {
    var arg := front + name + "=" + text;
    assert arg[|front| + |name|] == '=';
    if front != [] {
      assert arg[0] == front[0] && arg[1..] == front[1..] + name + "=" + text;
      EqualsAt(name, text, front[1..]);
    } else if name != [] {
      assert arg[0] == name[0] && arg[1..] == front + name[1..] + "=" + text;
      EqualsAt(name[1..], text, front);
    }
  }

  /** `--name=text` is taken exactly if the text suits the option, whatever it begins with, and sets that option. */
  lemma AssignmentRead(ctx: Context, key: string, config: Config, text: string, rest: seq<string>, s: State)
    requires Answers(ctx, key, config) && !s.dashdash && !config.isVariadic && '=' !in config.name
    requires Negated(ctx, "--" + config.name + "=" + text).None?
    ensures var r := Step(ctx, ["--" + config.name + "=" + text] + rest, s);
            && (r.Ok? <==> Coerce(ctx.number, config, text).Ok?)
            && (r.Ok? ==>
                  && r.value.1 == 1 && r.value.0 == s.(options := r.value.0.options)
                  && key in r.value.0.options && r.value.0.options - {key} == s.options - {key}
                  && Says(ctx.number, config, text, r.value.0.options[key]))
  {
    hide Coerce, Negated, Says, Step, StepAssign, NameFits, FlagsOf, Starts;
    var arg := "--" + config.name + "=" + text;
    EqualsAt(config.name, text, "--");
    ReadAsAssign(ctx, config.name, text, [arg] + rest, s);
    AssignStores(ctx, key, config, text, s);
  }

  lemma ReadAsAssign(ctx: Context, name: string, text: string, args: seq<string>, s: State)
    requires Sound(ctx) && !s.dashdash && args != [] && args[0] == "--" + name + "=" + text
    requires Negated(ctx, args[0]).None?
    ensures '=' in args[0] && Step(ctx, args, s) == StepAssign(ctx, args[0], s)
  {
    hide Negated, StepAssign, StepFlag;
    assert args[0][|name| + 2] == '=' && Starts(args[0], "-");
    assert '=' !in "--help" && '=' !in "--version" && '=' !in "-h" && '=' !in "-v" && '=' !in "--";
  }

  lemma AssignStores(ctx: Context, key: string, config: Config, text: string, s: State)
    requires Answers(ctx, key, config) && !config.isVariadic && '=' in "--" + config.name + "=" + text
    requires IndexOfEquals("--" + config.name + "=" + text) == |config.name| + 2
    ensures var r := StepAssign(ctx, "--" + config.name + "=" + text, s);
            && (r.Ok? <==> Coerce(ctx.number, config, text).Ok?)
            && (r.Ok? ==>
                  && r.value.1 == 1 && r.value.0 == s.(options := r.value.0.options)
                  && key in r.value.0.options && r.value.0.options - {key} == s.options - {key}
                  && Says(ctx.number, config, text, r.value.0.options[key]))
  {
    hide Coerce, Says, IndexOfEquals, NameFits, FlagsOf;
    var arg := "--" + config.name + "=" + text;
    assert arg[..|config.name| + 2] == "--" + config.name && arg[|config.name| + 3..] == text;
    CoerceIff(ctx.number, config, text);
  }

  /** What follows a boolean option, or is assigned to it, may say yes or no. */
  lemma FlagForms(ctx: Context, key: string, config: Config, rest: seq<string>, s: State)
    requires Answers(ctx, key, config) && config.kind.BooleanType? && !s.dashdash
    ensures Step(ctx, ["--" + config.name, "true"] + rest, s) == Ok((s.(options := s.options[key := Flag(true)]), 2))
    ensures Step(ctx, ["--" + config.name, "1"] + rest, s) == Ok((s.(options := s.options[key := Flag(true)]), 2))
    ensures Step(ctx, ["--" + config.name, "false"] + rest, s) == Ok((s.(options := s.options[key := Flag(false)]), 2))
    ensures Step(ctx, ["--" + config.name, "0"] + rest, s) == Ok((s.(options := s.options[key := Flag(false)]), 2))
  {
    ReadAsFlag(ctx, key, config, ["--" + config.name, "true"] + rest, s);
    ReadAsFlag(ctx, key, config, ["--" + config.name, "1"] + rest, s);
    ReadAsFlag(ctx, key, config, ["--" + config.name, "false"] + rest, s);
    ReadAsFlag(ctx, key, config, ["--" + config.name, "0"] + rest, s);
    YesAndNo();
  }

  lemma YesAndNo()
    ensures Lower("true") == "true" && Lower("1") == "1" && Lower("false") == "false" && Lower("0") == "0"
  {
  }

  /** No registered path leads further down. */
  predicate Last(entries: seq<Entry>, path: seq<string>) {
    forall i | 0 <= i < |entries| && path <= entries[i].path :: entries[i].path == path
  }

  lemma {:induction false} AtStep(node: Node, path: seq<string>, name: string)
    requires At(node, path).Some?
    ensures At(node, path + [name])
         == var k := ByName(At(node, path).value.children, name);
            if k < |At(node, path).value.children| then Some(At(node, path).value.children[k]) else None
    decreases |path|
  {
    if path == [] {
      assert path + [name] == [name] && [name][1..] == [];
    } else {
      assert (path + [name])[1..] == path[1..] + [name];
      AtStep(node.children[ByName(node.children, path[0])], path[1..], name);
    }
  }

  /** A node has no children exactly when no registered path passes through it. */
  lemma ChildlessIffLast(entries: seq<Entry>, path: seq<string>)
    requires Known(entries, path)
    ensures At(InsertAll(ROOT, entries), path).Some?
    ensures At(InsertAll(ROOT, entries), path).value.children == [] <==> Last(entries, path)
  {
    hide At, InsertAll, ByName;
    TreeHoldsEntries(entries, path);
    var children := At(InsertAll(ROOT, entries), path).value.children;
    if children != [] {
      var name := children[0].name;
      AtStep(InsertAll(ROOT, entries), path, name);
      TreeHoldsEntries(entries, path + [name]);
      var i :| 0 <= i < |entries| && path + [name] <= entries[i].path;
      assert path == (path + [name])[..|path|] == entries[i].path[..|path|];
    }
    forall i | 0 <= i < |entries| && path <= entries[i].path && entries[i].path != path
      ensures children != []
    {
      var name := entries[i].path[|path|];
      assert path + [name] <= entries[i].path;
      AtStep(InsertAll(ROOT, entries), path, name);
      TreeHoldsEntries(entries, path + [name]);
    }
  }

  /** A command registered last under its path, with nothing registered below it, is where its path leads. */
  lemma RegisteredLeaf(cli: Cli, i: nat)
    requires LastOf(cli.commands, i) && forall j | 0 <= j < |cli.commands| :: SlashFree(cli.commands[j].path)
    requires Plain(cli.commands[i].path) && Last(Entries(cli.groups, cli.commands), cli.commands[i].path)
    ensures Leaf(cli, cli.commands[i].path, cli.commands[i].command)
  {
    hide InsertAll, At, Join, CommandMap;
    var entries := Entries(cli.groups, cli.commands);
    assert entries[|cli.groups| + i].path == cli.commands[i].path;
    ChildlessIffLast(entries, cli.commands[i].path);
    CommandFound(cli.commands, i);
  }
}
