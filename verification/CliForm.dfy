/** The interactive form: which inputs it asks for, what its keys do, and the command line it prints. */
module CliForm {
  import opened Wrappers
  import opened Text
  import opened CliParser

  /** A declared positional; the name is optional. */
  datatype Arg = Arg(title: Option<string>, config: Config)

  datatype Field = Field(positional: bool, name: string, kind: OptionType, enumVals: seq<string>, isVariadic: bool)

  datatype Entered = Typed(text: string) | Chosen(on: bool)

  // ---------- the fields ----------

  predicate Asked(config: Config) {
    config.isRequired && config.default.None?
  }

  predicate AskedOption(config: Config) {
    !config.kind.PositionalType? && !config.isHidden && Asked(config)
  }

  function FieldOfArg(arg: Arg): Field {
    Field(true, arg.title.GetOr("arg"), if arg.config.kind.NumberType? then NumberType else StringType,
          arg.config.enumVals.GetOr([]), arg.config.isVariadic)
  }

  function FieldOfOption(config: Config): Field {
    Field(false, config.name, if config.kind.PositionalType? then StringType else config.kind,
          config.enumVals.GetOr([]), config.isVariadic)
  }

  function AskedArgs(args: seq<Arg>): seq<Arg> {
    if args == [] then []
    else AskedArgs(args[..|args| - 1]) + if Asked(args[|args| - 1].config) then [args[|args| - 1]] else []
  }

  function AskedOptions(options: seq<(string, Config)>): seq<(string, Config)> {
    if options == [] then []
    else AskedOptions(options[..|options| - 1])
         + if AskedOption(options[|options| - 1].1) then [options[|options| - 1]] else []
  }

  function ArgFields(args: seq<Arg>): seq<Field> {
    seq(|args|, i requires 0 <= i < |args| => FieldOfArg(args[i]))
  }

  function OptionFields(options: seq<(string, Config)>): seq<Field> {
    seq(|options|, i requires 0 <= i < |options| => FieldOfOption(options[i].1))
  }

  method CollectRequiredFields(args: seq<Arg>, options: seq<(string, Config)>) returns (fields: seq<Field>)
    ensures fields == ArgFields(AskedArgs(args)) + OptionFields(AskedOptions(options))
  {
    fields := [];
    for i := 0 to |args|
      invariant fields == ArgFields(AskedArgs(args[..i]))
    {
      assert args[..i + 1][..i] == args[..i];
      if !Asked(args[i].config) {
        continue;
      }
      fields := fields + [FieldOfArg(args[i])];
    }
    assert args[..|args|] == args;
    ghost var asked := fields;
    for i := 0 to |options|
      invariant fields == asked + OptionFields(AskedOptions(options[..i]))
    {
      assert options[..i + 1][..i] == options[..i];
      if options[i].1.kind.PositionalType? || options[i].1.isHidden {
        continue;
      }
      if !Asked(options[i].1) {
        continue;
      }
      fields := fields + [FieldOfOption(options[i].1)];
    }
    assert options[..|options|] == options;
  }

  /** The form asks for exactly the required, visible inputs without a default, in declaration order. */
  lemma {:induction false} AskedExactly(args: seq<Arg>, options: seq<(string, Config)>)
    ensures forall arg :: arg in AskedArgs(args) <==> arg in args && arg.config.isRequired && arg.config.default.None?
    ensures forall option :: option in AskedOptions(options) <==>
              && option in options && option.1.isRequired && option.1.default.None? && !option.1.isHidden
              && !option.1.kind.PositionalType?
    decreases |args| + |options|
  {
    if args != [] {
      var n := |args| - 1;
      AskedExactly(args[..n], options);
      assert forall arg :: arg in args <==> arg in args[..n] || arg == args[n];
    } else if options != [] {
      var n := |options| - 1;
      AskedExactly(args, options[..n]);
      assert forall option :: option in options <==> option in options[..n] || option == options[n];
    }
  }

  /** A field carries the name, kind, choices and arity its input was declared with. */
  lemma FieldsAsDeclared(arg: Arg, config: Config)
    requires !config.kind.PositionalType?
    ensures FieldOfOption(config) == Field(false, config.name, config.kind, config.enumVals.GetOr([]), config.isVariadic)
    ensures FieldOfArg(arg).positional && FieldOfArg(arg).isVariadic == arg.config.isVariadic
    ensures FieldOfArg(arg).enumVals == arg.config.enumVals.GetOr([])
    ensures FieldOfArg(arg).kind == (if arg.config.kind.NumberType? then NumberType else StringType)
  {
  }

  // ---------- the printed command line ----------

  function WordEnd(s: string): (n: nat)
    ensures n <= |s|
    ensures forall i | 0 <= i < n :: !IsSpace(s[i])
    ensures n < |s| ==> IsSpace(s[n])
  {
    if s == [] || IsSpace(s[0]) then 0 else 1 + WordEnd(s[1..])
  }

  predicate IsWord(w: string) {
    w != [] && forall c | c in w :: !IsSpace(c)
  }

  /** The space-separated values of a variadic field. */
  function Words(s: string): (words: seq<string>)
    ensures forall w | w in words :: IsWord(w)
    decreases |s|
  {
    if s == [] then []
    else if IsSpace(s[0]) then Words(s[1..])
    else [s[..WordEnd(s)]] + Words(s[WordEnd(s)..])
  }

  function JoinWords(words: seq<string>): string {
    if words == [] then [] else words[0] + " " + JoinWords(words[1..])
  }

  /** Any list of words can be typed into a variadic field, and comes back in order. */
  lemma {:induction false} WordsOfJoined(words: seq<string>)
    requires forall w | w in words :: IsWord(w)
    ensures Words(JoinWords(words)) == words
  {
    if words == [] {
      assert JoinWords(words) == "";
    } else {
      var s := JoinWords(words);
      var n := |words[0]|;
      assert IsWord(words[0]);
      assert s[..n] == words[0] && s[n] == ' ' && s[n..] == " " + JoinWords(words[1..]);
      assert forall i | 0 <= i < n :: s[i] in words[0];
      assert WordEnd(s) == n;
      WordsOfJoined(words[1..]);
      assert s[n..][1..] == JoinWords(words[1..]);
    }
  }

  /** The words hold every visible character of the text, in order. */
  function Visible(s: string): string {
    if s == [] then [] else (if IsSpace(s[0]) then [] else [s[0]]) + Visible(s[1..])
  }

  function Concat(words: seq<string>): string {
    if words == [] then [] else words[0] + Concat(words[1..])
  }

  lemma {:induction false} WordsLoseNothing(s: string)
    ensures Concat(Words(s)) == Visible(s)
    decreases |s|
  {
    if s == [] {
    } else if IsSpace(s[0]) {
      WordsLoseNothing(s[1..]);
    } else {
      VisiblePrefix(s, WordEnd(s));
      WordsLoseNothing(s[WordEnd(s)..]);
    }
  }

  lemma {:induction false} VisiblePrefix(s: string, n: nat)
    requires n <= |s| && forall i | 0 <= i < n :: !IsSpace(s[i])
    ensures Visible(s) == s[..n] + Visible(s[n..])
  {
    if n > 0 {
      VisiblePrefix(s[1..], n - 1);
      assert s[..n] == [s[0]] + s[1..][..n - 1] && s[n..] == s[1..][n - 1..];
    } else {
      assert s[0..] == s;
    }
  }

  /** `--flag word` for each word. */
  function Repeat(name: string, words: seq<string>): seq<string> {
    if words == [] then [] else ["--" + name, words[0]] + Repeat(name, words[1..])
  }

  function TokensOf(field: Field, value: Option<Entered>): seq<string> {
    if field.positional then
      if value.Some? && value.value.Typed? && value.value.text != "" then
        if field.isVariadic then Words(value.value.text) else [value.value.text]
      else []
    else if field.kind.BooleanType? then
      if value.Some? && value.value.Chosen? then
        [(if value.value.on then "--" else "--no-") + field.name]
      else []
    else if value.Some? && value.value.Typed? && value.value.text != "" then
      if field.isVariadic then Repeat(field.name, Words(value.value.text)) else ["--" + field.name, value.value.text]
    else []
  }

  function ValueAt(values: seq<Entered>, i: nat): Option<Entered> {
    if i < |values| then Some(values[i]) else None
  }

  function Tokens(fields: seq<Field>, values: seq<Entered>): seq<string> {
    if fields == [] then []
    else TokensOf(fields[0], ValueAt(values, 0)) + Tokens(fields[1..], if values == [] then [] else values[1..])
  }

  method BuildRunArgs(path: seq<string>, fields: seq<Field>, values: seq<Entered>) returns (args: seq<string>)
    ensures args == path + Tokens(fields, values)
  {
    hide Tokens, Words, Repeat;
    args := path;
    assert fields[0..] == fields && values[0..] == values;
    for i := 0 to |fields|
      invariant args + Tokens(fields[i..], Rest(values, i)) == path + Tokens(fields, values)
    {
      var field := fields[i];
      var value := ValueAt(values, i);
      ghost var before := args;
      TokensStep(fields, values, i);
      if field.positional {
        if value.Some? && value.value.Typed? && value.value.text != "" {
          args := args + if field.isVariadic then Words(value.value.text) else [value.value.text];
        }
      } else if field.kind.BooleanType? {
        if value == Some(Chosen(true)) {
          args := args + ["--" + field.name];
        } else if value == Some(Chosen(false)) {
          args := args + ["--no-" + field.name];
        }
      } else if value.Some? && value.value.Typed? && value.value.text != "" {
        if field.isVariadic {
          args := PushEach(args, field.name, Words(value.value.text));
        } else {
          args := args + ["--" + field.name, value.value.text];
        }
      }
      assert args == before + TokensOf(field, value);
    }
    assert Tokens(fields[|fields|..], Rest(values, |fields|)) == [] by { NoTokens(fields, values); }
  }

  lemma TokensStep(fields: seq<Field>, values: seq<Entered>, i: nat)
    requires i < |fields|
    ensures Tokens(fields[i..], Rest(values, i))
         == TokensOf(fields[i], ValueAt(values, i)) + Tokens(fields[i + 1..], Rest(values, i + 1))
  {
    assert fields[i..][1..] == fields[i + 1..];
    assert i < |values| ==> values[i..][1..] == values[i + 1..];
  }

  lemma NoTokens(fields: seq<Field>, values: seq<Entered>)
    ensures Tokens(fields[|fields|..], Rest(values, |fields|)) == []
  {
  }

  function Rest(values: seq<Entered>, i: nat): seq<Entered> {
    if i <= |values| then values[i..] else []
  }

  method PushEach(args: seq<string>, name: string, words: seq<string>) returns (more: seq<string>)
    ensures more == args + Repeat(name, words)
  {
    more := args;
    for k := 0 to |words|
      invariant more + Repeat(name, words[k..]) == args + Repeat(name, words)
    {
      more := more + ["--" + name, words[k]];
      assert words[k..][1..] == words[k + 1..];
    }
  }

  // ---------- the keys ----------

  const ESC := "\U{1B}"
  const INTERRUPT := "\U{3}"
  const BACKSPACE := "\U{7F}"
  const UP := "\U{1B}[A"
  const DOWN := "\U{1B}[B"
  const LEFT := "\U{1B}[D"
  const ENTER := "\r"

  datatype Answer = Stay | Cancel | Quit | Run(args: seq<string>)

  datatype Filling = Filling(values: seq<Entered>, index: nat, buffer: string, enumIndex: nat, confirming: bool)

  const BLANK := Filling([], 0, "", 0, false)

  /** What a form value must be for its field. */
  predicate Admissible(number: string -> Option<real>, field: Field, value: Entered) {
    if field.enumVals != [] then value.Typed? && value.text in field.enumVals
    else if field.kind.BooleanType? then value.Chosen?
    else value.Typed? && value.text != "" && Trim(value.text) == value.text
         && (field.kind.NumberType? ==> number(value.text).Some?)
  }

  /** Every answer given so far suits its field, and only a full form asks for confirmation. */
  predicate Coherent(number: string -> Option<real>, fields: seq<Field>, f: Filling) {
    && f.index <= |f.values| <= |fields|
    && (forall i | 0 <= i < |f.values| :: Admissible(number, fields[i], f.values[i]))
    && (f.confirming <==> f.index == |fields|)
    && (f.enumIndex == 0 || (f.index < |fields| && f.enumIndex < |fields[f.index].enumVals|))
  }

  lemma {:induction false} TrimEndTwice(s: string)
    ensures TrimEnd(TrimEnd(s)) == TrimEnd(s)
    ensures TrimEnd(s) <= s
    ensures TrimEnd(s) != [] ==> !IsSpace(TrimEnd(s)[|TrimEnd(s)| - 1])
  {
    if s != [] && IsSpace(s[|s| - 1]) {
      TrimEndTwice(s[..|s| - 1]);
    }
  }

  lemma {:induction false} TrimTwice(s: string)
    ensures Trim(Trim(s)) == Trim(s)
  {
    if s != [] && IsSpace(s[0]) {
      TrimTwice(s[1..]);
    } else {
      TrimEndTwice(s);
    }
  }

  class Form {
    const path: seq<string>
    const fields: seq<Field>
    const number: string -> Option<real>
    var values: seq<Entered>
    var index: nat
    var buffer: string
    var enumIndex: nat
    var confirming: bool

    function State(): Filling
      reads this
    {
      Filling(values, index, buffer, enumIndex, confirming)
    }

    predicate Valid()
      reads this
    {
      fields != [] && Coherent(number, fields, State())
    }

    constructor (path: seq<string>, fields: seq<Field>, number: string -> Option<real>)
      requires fields != []
      ensures Valid() && State() == BLANK
      ensures this.path == path && this.fields == fields && this.number == number
    {
      this.path, this.fields, this.number := path, fields, number;
      values, index, buffer, enumIndex, confirming := [], 0, "", 0, false;
    }

    method Commit(value: Entered)
      requires Valid() && !confirming && Admissible(number, fields[index], value)
      modifies this
      ensures Valid() && State() == Committed(fields, old(State()), value)
    {
      hide Admissible;
      values := if index < |values| then values[index := value] else values + [value];
      index := index + 1;
      buffer := "";
      enumIndex := 0;
      if index >= |fields| {
        confirming := true;
      }
    }

    /** A run is only ever a full form, each answer suited to its field. */
    method Handle(key: string) returns (answer: Answer)
      requires Valid()
      modifies this
      ensures Valid() && (State(), answer) == Press(number, path, fields, old(State()), key)
      ensures answer.Run? ==> |values| == |fields| && answer.args == path + Tokens(fields, values)
    {
      hide Tokens, Edited;
      if key == INTERRUPT {
        return Quit;
      }
      if key == ESC {
        return Cancel;
      }
      if confirming {
        answer := Confirm(key);
      } else if fields[index].enumVals != [] {
        Choose(key);
        answer := Stay;
      } else {
        Input(key);
        answer := Stay;
      }
    }

    method Confirm(key: string) returns (answer: Answer)
      requires Valid() && confirming && key != INTERRUPT && key != ESC
      modifies this
      ensures Valid() && (State(), answer) == Press(number, path, fields, old(State()), key)
      ensures unchanged(`values)
    {
      hide Tokens, Edited;
      if key == ENTER {
        var args := BuildRunArgs(path, fields, values);
        return Run(args);
      }
      if key == LEFT || key == BACKSPACE {
        confirming := false;
        index := index - 1;
        buffer := if values[index].Typed? then values[index].text else "";
      }
      return Stay;
    }

    method Choose(key: string)
      requires Valid() && !confirming && fields[index].enumVals != []
      modifies this
      ensures Valid() && State() == Edited(number, fields, old(State()), key)
    {
      hide Committed, Wrap;
      var n := |fields[index].enumVals|;
      if key == UP {
        enumIndex := Wrap(enumIndex - 1 + n, n);
      } else if key == DOWN {
        enumIndex := Wrap(enumIndex + 1, n);
      } else if key == ENTER {
        Commit(Typed(fields[index].enumVals[enumIndex]));
      }
    }

    method Input(key: string)
      requires Valid() && !confirming && fields[index].enumVals == []
      modifies this
      ensures Valid() && State() == Edited(number, fields, old(State()), key)
    {
      hide Trim, Starts, Committed;
      var field := fields[index];
      if field.kind.BooleanType? {
        if key == "y" || key == "Y" {
          Commit(Chosen(true));
        } else if key == "n" || key == "N" {
          Commit(Chosen(false));
        }
        return;
      }
      if key == ENTER {
        var trimmed := Trim(buffer);
        TrimTwice(buffer);
        if trimmed == "" || (field.kind.NumberType? && number(trimmed).None?) {
          return;
        }
        Commit(Typed(trimmed));
      } else if key == BACKSPACE {
        buffer := if buffer == "" then "" else buffer[..|buffer| - 1];
      } else if !Starts(key, ESC) && key != "" && key[0] >= ' ' {
        buffer := buffer + key;
      }
    }
  }

  function Wrap(i: nat, n: nat): (r: nat)
    requires 0 < n && i < 2 * n
    ensures r == if i < n then i else i - n
  {
    i % n
  }

  function Committed(fields: seq<Field>, f: Filling, value: Entered): Filling {
    Filling(if f.index < |f.values| then f.values[f.index := value] else f.values + [value],
            f.index + 1, "", 0, f.index + 1 >= |fields|)
  }

  /** The form's state machine, key by key. */
  function Press(number: string -> Option<real>, path: seq<string>, fields: seq<Field>, f: Filling, key: string)
    : (Filling, Answer)
    requires Coherent(number, fields, f) && fields != []
  {
    if key == INTERRUPT then (f, Quit)
    else if key == ESC then (f, Cancel)
    else if f.confirming then
      if key == ENTER then (f, Run(path + Tokens(fields, f.values)))
      else if key == LEFT || key == BACKSPACE then
        var last := f.values[f.index - 1];
        (f.(confirming := false, index := f.index - 1, buffer := if last.Typed? then last.text else ""), Stay)
      else (f, Stay)
    else (Edited(number, fields, f, key), Stay)
  }

  function Edited(number: string -> Option<real>, fields: seq<Field>, f: Filling, key: string): Filling
    requires Coherent(number, fields, f) && !f.confirming
  {
    var field := fields[f.index];
    var n := |field.enumVals|;
    if n > 0 then
      if key == UP then f.(enumIndex := if f.enumIndex == 0 then n - 1 else f.enumIndex - 1)
      else if key == DOWN then f.(enumIndex := if f.enumIndex == n - 1 then 0 else f.enumIndex + 1)
      else if key == ENTER then Committed(fields, f, Typed(field.enumVals[f.enumIndex]))
      else f
    else if field.kind.BooleanType? then
      if key in {"y", "Y"} then Committed(fields, f, Chosen(true))
      else if key in {"n", "N"} then Committed(fields, f, Chosen(false))
      else f
    else if key == ENTER then
      if Admissible(number, field, Typed(Trim(f.buffer))) then Committed(fields, f, Typed(Trim(f.buffer))) else f
    else if key == BACKSPACE then f.(buffer := if f.buffer == "" then "" else f.buffer[..|f.buffer| - 1])
    else if !Starts(key, ESC) && key != "" && key[0] >= ' ' then f.(buffer := f.buffer + key)
    else f
  }

  /** What each key does while a text is being typed. */
  lemma KeysWhileTyping(number: string -> Option<real>, path: seq<string>, fields: seq<Field>, f: Filling)
    requires Coherent(number, fields, f) && fields != [] && !f.confirming
    requires fields[f.index].enumVals == [] && !fields[f.index].kind.BooleanType?
    ensures Press(number, path, fields, f, ESC) == (f, Cancel) && Press(number, path, fields, f, INTERRUPT) == (f, Quit)
    ensures f.buffer != "" ==> Press(number, path, fields, f, BACKSPACE) == (f.(buffer := f.buffer[..|f.buffer| - 1]), Stay)
    ensures f.buffer == "" ==> Press(number, path, fields, f, BACKSPACE) == (f, Stay)
    ensures Press(number, path, fields, f, "a") == (f.(buffer := f.buffer + "a"), Stay)
    ensures Press(number, path, fields, f, UP) == Press(number, path, fields, f, LEFT) == (f, Stay)
    ensures Trim(f.buffer) == "" ==> Press(number, path, fields, f, ENTER) == (f, Stay)
    ensures fields[f.index].kind.NumberType? && number(Trim(f.buffer)).None? ==> Press(number, path, fields, f, ENTER) == (f, Stay)
  {
    hide Trim;
    assert UP[..1] == ESC && LEFT[..1] == ESC && Starts(UP, ESC) && Starts(LEFT, ESC);
  }

  /** The arrows move among the choices and wrap around; enter takes the one they stand on. */
  lemma KeysWhileChoosing(number: string -> Option<real>, path: seq<string>, fields: seq<Field>, f: Filling)
    requires Coherent(number, fields, f) && fields != [] && !f.confirming && |fields[f.index].enumVals| > 1
    ensures var n := |fields[f.index].enumVals|;
            var up, down := Press(number, path, fields, f, UP).0, Press(number, path, fields, f, DOWN).0;
            && up == f.(enumIndex := up.enumIndex) && down == f.(enumIndex := down.enumIndex)
            && (up.enumIndex + 1) % n == f.enumIndex % n && (f.enumIndex + 1) % n == down.enumIndex
            && up.enumIndex < n && down.enumIndex < n
    ensures var next := Press(number, path, fields, f, ENTER).0;
            next.index == f.index + 1 && next.index <= |next.values| && next.values[f.index] == Typed(fields[f.index].enumVals[f.enumIndex])
  {
  }

  /** Yes and no, in either case of letter; anything else is ignored. */
  lemma KeysWhileFlagging(number: string -> Option<real>, path: seq<string>, fields: seq<Field>, f: Filling, key: string)
    requires Coherent(number, fields, f) && fields != [] && !f.confirming && key != INTERRUPT && key != ESC
    requires fields[f.index].enumVals == [] && fields[f.index].kind.BooleanType?
    ensures var next := Press(number, path, fields, f, key).0;
            if key in ["y", "Y", "n", "N"] then
              && next.index == f.index + 1 && next.index <= |next.values|
              && next.values[f.index] == Chosen(key == "y" || key == "Y")
            else next == f
  {
  }

  /** Before the run, left or backspace goes back to the last field, with its text to be edited. */
  lemma KeysWhileConfirming(number: string -> Option<real>, path: seq<string>, fields: seq<Field>, f: Filling, key: string)
    requires Coherent(number, fields, f) && fields != [] && f.confirming && key in [LEFT, BACKSPACE]
    ensures var (back, answer) := Press(number, path, fields, f, key);
            && answer == Stay && !back.confirming && back.index == |fields| - 1 && back.values == f.values
            && (f.values[|fields| - 1].Typed? ==> back.buffer == f.values[|fields| - 1].text)
    ensures Press(number, path, fields, f, ENTER).1 == Run(path + Tokens(fields, f.values))
  {
    hide Tokens;
  }
}
