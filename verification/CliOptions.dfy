/** The printed option flags, read back by the parser. */
module CliOptions {
  import opened Wrappers
  import opened Text
  import opened CliParser
  import opened CliForm

  ghost predicate BooleanFlag(all: map<string, Config>, flag: string) {
    exists key | key in all :: all[key].kind.BooleanType? && flag in FlagsOf(all[key])
  }

  /** Names whose printed flag can only be read as that option. */
  ghost predicate NameFits(all: map<string, Config>, name: string) {
    && |name| > 1 && !Starts(name, "-") && '=' !in name && name != "help"
    && (Starts(name, "no-") ==> !BooleanFlag(all, "--" + name[3..]))
  }

  ghost predicate DistinctFlags(all: map<string, Config>) {
    forall k, m | k in all && m in all && k != m :: FlagsOf(all[k]) !! FlagsOf(all[m])
  }

  predicate TokenFits(number: string -> Option<real>, config: Config, token: string) {
    token != "" && !Starts(token, "-") && Coerce(number, config, token).Ok?
  }

  predicate ValueFits(number: string -> Option<real>, config: Config, value: Entered) {
    if config.kind.BooleanType? then value.Chosen?
    else if !value.Typed? then false
    else if config.isVariadic then Words(value.text) != [] && forall w | w in Words(value.text) :: TokenFits(number, config, w)
    else TokenFits(number, config, value.text)
  }

  function Coerced(number: string -> Option<real>, config: Config, words: seq<string>): seq<Value>
    requires forall w | w in words :: TokenFits(number, config, w)
  {
    if words == [] then []
    else
      assert TokenFits(number, config, words[0]);
      [Coerce(number, config, words[0]).value] + Coerced(number, config, words[1..])
  }

  /** The value an answer stands for. */
  function EnteredValue(number: string -> Option<real>, config: Config, value: Entered): Value
    requires ValueFits(number, config, value)
  {
    if config.kind.BooleanType? then Flag(value.on)
    else if config.isVariadic then List(Coerced(number, config, Words(value.text)))
    else Coerce(number, config, value.text).value
  }

  /** `v` is what was entered: the flag, what the text says, or the list of what its words say, in order. */
  predicate Means(number: string -> Option<real>, config: Config, answer: Entered, v: Value) {
    if config.kind.BooleanType? then answer.Chosen? && v == Flag(answer.on)
    else if !answer.Typed? then false
    else if config.isVariadic then
      && v.List? && |v.items| == |Words(answer.text)|
      && forall j | 0 <= j < |v.items| :: Says(number, config, Words(answer.text)[j], v.items[j])
    else Says(number, config, answer.text, v)
  }

  lemma {:induction false} CoercedSay(number: string -> Option<real>, config: Config, words: seq<string>)
    requires forall w | w in words :: TokenFits(number, config, w)
    ensures |Coerced(number, config, words)| == |words|
    ensures forall j | 0 <= j < |words| :: Says(number, config, words[j], Coerced(number, config, words)[j])
  {
    hide Coerce; hide Says;
    if words != [] {
      assert TokenFits(number, config, words[0]);
      CoerceIff(number, config, words[0]);
      CoercedSay(number, config, words[1..]);
      forall j | 0 < j < |words| ensures Says(number, config, words[j], Coerced(number, config, words)[j]) {
        assert words[j] == words[1..][j - 1] && Coerced(number, config, words)[j] == Coerced(number, config, words[1..])[j - 1];
      }
    }
  }

  lemma EnteredMeans(number: string -> Option<real>, config: Config, answer: Entered)
    requires ValueFits(number, config, answer)
    ensures Means(number, config, answer, EnteredValue(number, config, answer))
  {
    hide Coerce; hide Says;
    if answer.Typed? && !config.kind.BooleanType? {
      if config.isVariadic {
        CoercedSay(number, config, Words(answer.text));
      } else {
        CoerceIff(number, config, answer.text);
      }
    }
  }

  predicate ValuesFit(number: string -> Option<real>, options: seq<(string, Config)>, values: seq<Entered>) {
    |values| == |options| && forall i | 0 <= i < |options| :: ValueFits(number, options[i].1, values[i])
  }

  function EnteredOptions(number: string -> Option<real>, options: seq<(string, Config)>, values: seq<Entered>): map<string, Value>
    requires ValuesFit(number, options, values)
  {
    if options == [] then map[]
    else map[options[0].0 := EnteredValue(number, options[0].1, values[0])] + EnteredOptions(number, options[1..], values[1..])
  }

  // ---------- single steps ----------

  /** `--name` can only be read as option `key`. */
  ghost predicate Answers(ctx: Context, key: string, config: Config) {
    && Sound(ctx) && NameFits(ctx.all, config.name) && key in ctx.all && ctx.all[key] == config
    && "--" + config.name in ctx.table && ctx.table["--" + config.name] == key
    && (forall flag | flag in ctx.table :: flag in FlagsOf(ctx.all[ctx.table[flag]]))
  }

  lemma FlagAnswers(ctx: Context, key: string, config: Config)
    requires Indexes(ctx.table, ctx.all) && DistinctFlags(ctx.all) && NameFits(ctx.all, config.name)
    requires key in ctx.all && ctx.all[key] == config && !config.kind.PositionalType?
    ensures Answers(ctx, key, config)
  {
    var flag := "--" + config.name;
    assert flag == FlagOf(config.name) && flag in FlagsOf(config);
    assert flag in ctx.table && flag in FlagsOf(ctx.all[ctx.table[flag]]);
  }

  /** Neither help, nor version, nor a negation, nor an assignment. */
  lemma ReadAsFlag(ctx: Context, key: string, config: Config, args: seq<string>, s: State)
    requires Answers(ctx, key, config) && args != [] && args[0] == "--" + config.name && !s.dashdash
    ensures Step(ctx, args, s) == StepFlag(ctx, args, s)
  {
    hide StepFlag, StepAssign, FlagsOf;
    var arg := args[0];
    assert arg[2..] == config.name && Starts(arg, "-") && arg != "--";
    assert "--help"[2..] == "help" && |"-h"| == 2 && |"-v"| == 2;
    assert '=' !in arg by {
      assert forall i | 2 <= i < |arg| :: arg[i] == config.name[i - 2];
    }
    if Starts(arg, "--no-") {
      assert "--no-"[2..] == "no-" && arg[..5][2..] == config.name[..3] && arg[5..] == config.name[3..];
    }
  }

  lemma StepNo(ctx: Context, key: string, config: Config, args: seq<string>, s: State)
    requires Answers(ctx, key, config) && config.kind.BooleanType? && !s.dashdash
    requires args != [] && args[0] == "--no-" + config.name
    ensures Step(ctx, args, s) == Ok((s.(options := s.options[key := Flag(false)]), 1))
  {
    hide StepFlag, StepAssign, FlagsOf;
    var arg := args[0];
    assert arg[5..] == config.name && Starts(arg, "--no-") && arg[2] == 'n';
    assert "--help"[2] == 'h' && |"--version"| == 9 && "--version"[2] == 'v' && |"-h"| == 2 && |"-v"| == 2;
  }

  lemma StepYes(ctx: Context, key: string, config: Config, args: seq<string>, s: State)
    requires Answers(ctx, key, config) && config.kind.BooleanType? && !s.dashdash
    requires args != [] && args[0] == "--" + config.name && (|args| > 1 ==> Starts(args[1], "-"))
    ensures Step(ctx, args, s) == Ok((s.(options := s.options[key := Flag(true)]), 1))
  {
    ReadAsFlag(ctx, key, config, args, s);
    if |args| > 1 {
      assert args[1][0] == "-"[0] && Lower(args[1])[0] == '-';
    }
  }

  lemma StepValue(ctx: Context, key: string, config: Config, args: seq<string>, s: State)
    requires Answers(ctx, key, config) && !config.kind.BooleanType? && !s.dashdash
    requires |args| > 1 && args[0] == "--" + config.name && TokenFits(ctx.number, config, args[1])
    ensures Step(ctx, args, s) == Ok((Store(s, key, config, Coerce(ctx.number, config, args[1]).value), 2))
  {
    hide Coerce, Store;
    ReadAsFlag(ctx, key, config, args, s);
  }

  // ---------- runs of tokens ----------

  predicate FlagsFollow(rest: seq<string>) {
    rest == [] || Starts(rest[0], "--")
  }

  lemma {:induction false} ParseRepeat(ctx: Context, key: string, config: Config, words: seq<string>, rest: seq<string>, s: State)
    requires Answers(ctx, key, config) && !config.kind.BooleanType? && config.isVariadic && !s.dashdash
    requires key in s.options && s.options[key].List?
    requires forall w | w in words :: TokenFits(ctx.number, config, w)
    ensures ParseFrom(ctx, Repeat(config.name, words) + rest, s)
         == ParseFrom(ctx, rest, s.(options := s.options[key := List(s.options[key].items + Coerced(ctx.number, config, words))]))
    decreases |words|
  {
    hide Coerce, TokenFits, Answers, Step;
    if words == [] {
      assert Repeat(config.name, words) + rest == rest;
      assert s.options[key].items + [] == s.options[key].items;
      assert s.options[key := s.options[key]] == s.options;
    } else {
      var args := Repeat(config.name, words) + rest;
      assert TokenFits(ctx.number, config, words[0]);
      assert args[0] == "--" + config.name && args[1] == words[0];
      assert args[2..] == Repeat(config.name, words[1..]) + rest;
      StepValue(ctx, key, config, args, s);
      var next := s.(options := s.options[key := List(s.options[key].items + [Coerced(ctx.number, config, words)[0]])]);
      ParseRepeat(ctx, key, config, words[1..], rest, next);
      assert next.options[key].items + Coerced(ctx.number, config, words[1..])
          == s.options[key].items + Coerced(ctx.number, config, words);
      var all := List(s.options[key].items + Coerced(ctx.number, config, words));
      assert next.options[key := all] == s.options[key := all];
    }
  }

  lemma ParseVariadic(ctx: Context, key: string, config: Config, words: seq<string>, rest: seq<string>, s: State)
    requires Answers(ctx, key, config) && !config.kind.BooleanType? && config.isVariadic && !s.dashdash
    requires key !in s.options && words != [] && forall w | w in words :: TokenFits(ctx.number, config, w)
    ensures ParseFrom(ctx, Repeat(config.name, words) + rest, s)
         == ParseFrom(ctx, rest, s.(options := s.options[key := List(Coerced(ctx.number, config, words))]))
  {
    hide Coerce, TokenFits, Answers, Step;
    var args := Repeat(config.name, words) + rest;
    assert TokenFits(ctx.number, config, words[0]);
    assert args[0] == "--" + config.name && args[1] == words[0];
    assert args[2..] == Repeat(config.name, words[1..]) + rest;
    StepValue(ctx, key, config, args, s);
    var v := Coerced(ctx.number, config, words)[0];
    var next := s.(options := s.options[key := List([v])]);
    assert [] + [v] == [v];
    ParseRepeat(ctx, key, config, words[1..], rest, next);
    var all := List(Coerced(ctx.number, config, words));
    assert [v] + Coerced(ctx.number, config, words[1..]) == all.items;
    assert next.options[key := all] == s.options[key := all];
  }

  lemma ParseOption(ctx: Context, key: string, config: Config, value: Entered, rest: seq<string>, s: State)
    requires Answers(ctx, key, config) && !config.kind.PositionalType? && !s.dashdash && key !in s.options
    requires ValueFits(ctx.number, config, value) && FlagsFollow(rest)
    ensures ParseFrom(ctx, TokensOf(FieldOfOption(config), Some(value)) + rest, s)
         == ParseFrom(ctx, rest, s.(options := s.options[key := EnteredValue(ctx.number, config, value)]))
  {
    hide Coerce, TokenFits, Answers, Step;
    var tokens := TokensOf(FieldOfOption(config), Some(value));
    var args := tokens + rest;
    if config.kind.BooleanType? {
      assert args[0] == tokens[0] && args[1..] == rest;
      if value.on {
        assert rest != [] ==> Starts(rest[0], "-");
        StepYes(ctx, key, config, args, s);
      } else {
        StepNo(ctx, key, config, args, s);
      }
    } else if config.isVariadic {
      var words := Words(value.text);
      TypedNonempty(value.text);
      assert tokens == Repeat(config.name, words);
      ParseVariadic(ctx, key, config, words, rest, s);
    } else {
      NonemptyToken(ctx.number, config, value.text);
      assert args[0] == "--" + config.name && args[1] == value.text && args[2..] == rest;
      StepValue(ctx, key, config, args, s);
    }
  }

  lemma TypedNonempty(text: string)
    ensures Words(text) != [] ==> text != ""
  {
  }

  lemma NonemptyToken(number: string -> Option<real>, config: Config, token: string)
    ensures TokenFits(number, config, token) ==> token != ""
  {
  }

  ghost predicate AllAnswer(ctx: Context, options: seq<(string, Config)>) {
    && (forall i | 0 <= i < |options| :: Answers(ctx, options[i].0, options[i].1) && !options[i].1.kind.PositionalType?)
    && (forall i, j | 0 <= i < j < |options| :: options[i].0 != options[j].0)
  }

  lemma {:induction false} OptionTokensFollow(number: string -> Option<real>, options: seq<(string, Config)>, values: seq<Entered>)
    requires ValuesFit(number, options, values) && forall i | 0 <= i < |options| :: !options[i].1.kind.PositionalType?
    ensures FlagsFollow(Tokens(OptionFields(options), values))
  {
    if options != [] {
      hide Coerce;
      var field := FieldOfOption(options[0].1);
      assert OptionFields(options)[0] == field && OptionFields(options)[1..] == OptionFields(options[1..]);
      assert ValueFits(number, options[0].1, values[0]);
      TypedNonempty(if values[0].Typed? then values[0].text else "");
      var first := TokensOf(field, Some(values[0]));
      assert Starts("--no-" + field.name, "--") && Starts("--" + field.name, "--");
      assert first != [] && Starts(first[0], "--");
    }
  }

  lemma HeadTokens(options: seq<(string, Config)>, values: seq<Entered>)
    requires |options| == |values| > 0
    ensures Tokens(OptionFields(options), values)
         == TokensOf(FieldOfOption(options[0].1), Some(values[0])) + Tokens(OptionFields(options[1..]), values[1..])
  {
    assert OptionFields(options)[0] == FieldOfOption(options[0].1) && OptionFields(options)[1..] == OptionFields(options[1..]);
  }

  lemma PutFirst(m: map<string, Value>, key: string, v: Value, rest: map<string, Value>)
    ensures m[key := v] + rest == m + (map[key := v] + rest)
  {
  }

  /** The printed options parse to exactly the entered values, in whatever state the parser reached before. */
  lemma {:induction false} ParseOptions(ctx: Context, options: seq<(string, Config)>, values: seq<Entered>, s: State)
    requires AllAnswer(ctx, options) && Sound(ctx) && ValuesFit(ctx.number, options, values) && !s.dashdash
    requires forall i | 0 <= i < |options| :: options[i].0 !in s.options
    ensures ParseFrom(ctx, Tokens(OptionFields(options), values), s)
         == Ok(s.(options := s.options + EnteredOptions(ctx.number, options, values)))
    decreases |options|
  {
    hide Answers, Step, ValueFits, EnteredValue, TokensOf;
    if options == [] {
      assert s.options + map[] == s.options;
    } else {
      hide Tokens, ParseFrom, FlagsFollow;
      var (key, config) := options[0];
      HeadTokens(options, values);
      OptionTokensFollow(ctx.number, options[1..], values[1..]);
      ParseOption(ctx, key, config, values[0], Tokens(OptionFields(options[1..]), values[1..]), s);
      var v := EnteredValue(ctx.number, config, values[0]);
      ParseOptions(ctx, options[1..], values[1..], s.(options := s.options[key := v]));
      PutFirst(s.options, key, v, EnteredOptions(ctx.number, options[1..], values[1..]));
    }
  }

  lemma NotDashed(arg: string)
    requires !Starts(arg, "-")
    ensures arg !in {"--", "--help", "-h", "--version", "-v"} && !Starts(arg, "--no-")
  {
    if arg != [] {
      assert arg[..1] == [arg[0]] && arg[0] != '-';
    }
  }

  /** Plain tokens become positionals. */
  lemma {:induction false} ParsePlain(ctx: Context, plain: seq<string>, rest: seq<string>, s: State)
    requires Sound(ctx) && !s.dashdash && forall t | t in plain :: !Starts(t, "-")
    ensures ParseFrom(ctx, plain + rest, s) == ParseFrom(ctx, rest, s.(positionals := s.positionals + plain))
    decreases |plain|
  {
    if plain == [] {
      assert plain + rest == rest && s.positionals + plain == s.positionals;
    } else {
      var args := plain + rest;
      var arg := args[0];
      assert arg == plain[0] && plain[0] in plain && args[1..] == plain[1..] + rest;
      NotDashed(arg);
      var next := s.(positionals := s.positionals + [arg]);
      assert Step(ctx, args, s) == Ok((next, 1));
      ParsePlain(ctx, plain[1..], rest, next);
      assert next.positionals + plain[1..] == s.positionals + plain;
    }
  }
}
