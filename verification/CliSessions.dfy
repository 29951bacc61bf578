/** From the keys pressed in a form to the command that runs. */
module CliSessions {
  import opened Wrappers
  import opened CliParser
  import opened CliForm
  import opened CliRouter
  import opened CliFormRuns
  import opened CliRunner
  import opened CliRoundTrip

  function SetupOf(cli: Cli, path: seq<string>, command: CommandConfig): Setup {
    Setup(cli.number, path, FieldsOf(command))
  }

  /** The answers a form holds once these keys have been pressed, positionals and options apart. */
  function FilledBy(cli: Cli, path: seq<string>, command: CommandConfig, keys: seq<string>): Filled
    requires FieldsOf(command) != []
  {
    var values := Keyed(SetupOf(cli, path, command), BLANK, keys).0.values;
    var n := |AskedArgs(DeclaredArgs(command))|;
    if n <= |values| then Filled(path, command, values[..n], values[n..]) else Filled(path, command, values, [])
  }

  /** Keys that end in a run print the line of the answers they gave. */
  lemma KeysPrint(cli: Cli, path: seq<string>, command: CommandConfig, keys: seq<string>)
    requires FieldsOf(command) != []
    ensures var end, form := Keyed(SetupOf(cli, path, command), BLANK, keys), FilledBy(cli, path, command, keys);
            end.1.Run? ==>
              && AllAdmissible(SetupOf(cli, path, command), form.argValues + form.optionValues)
              && end.1.args == Printed(form)
  {
    hide Keyed, Tokens;
    RunIsComplete(SetupOf(cli, path, command), BLANK, keys);
    var values, n := Keyed(SetupOf(cli, path, command), BLANK, keys).0.values, |AskedArgs(DeclaredArgs(command))|;
    assert n <= |values| ==> values[..n] + values[n..] == values;
    assert values + [] == values;
  }

  /** Keys that end in a run, with answers that fit, make the command run with exactly those, unless its other options stop it. */
  lemma KeysRunAsEntered(cli: Cli, path: seq<string>, command: CommandConfig, keys: seq<string>,
                         byName: map<string, Config>, table: map<string, string>, outcome: Outcome)
    requires FieldsOf(command) != []
    requires var form := FilledBy(cli, path, command, keys);
             Declared(cli, form) && Answered(cli, form)
    ensures var answer := Keyed(SetupOf(cli, path, command), BLANK, keys).1;
            answer.Run? && Executes(cli, answer.args, byName, table, outcome) ==>
              EndsAsEntered(cli, FilledBy(cli, path, command, keys), outcome)
  {
    hide Keyed, Tokens, Executes, EndsAsEntered, Declared, Answered, FilledBy;
    KeysPrint(cli, path, command, keys);
    RoundTrip(cli, FilledBy(cli, path, command, keys), byName, table, outcome);
  }

  /** Any fitting printable answers can be typed, and then the command runs with exactly those, unless its other options stop it. */
  lemma TypedRunsAsEntered(cli: Cli, form: Filled, byName: map<string, Config>, table: map<string, string>, outcome: Outcome)
    requires Declared(cli, form) && Answered(cli, form) && FieldsOf(form.command) != []
    requires var values := form.argValues + form.optionValues;
             && AllAdmissible(SetupOf(cli, form.path, form.command), values)
             && forall v | v in values && v.Typed? :: Printable(v.text)
    ensures var keys := KeysForAll(FieldsOf(form.command), form.argValues + form.optionValues);
            var answer := Keyed(SetupOf(cli, form.path, form.command), BLANK, keys).1;
            answer.Run? && (Executes(cli, answer.args, byName, table, outcome) ==> EndsAsEntered(cli, form, outcome))
  {
    hide Keyed, Tokens, Executes, EndsAsEntered, Declared, Answered, KeysForAll, AllAdmissible;
    AdmissibleLength(SetupOf(cli, form.path, form.command), form.argValues + form.optionValues);
    AnyAnswersCanBeGiven(SetupOf(cli, form.path, form.command), form.argValues + form.optionValues);
    RoundTrip(cli, form, byName, table, outcome);
  }

  lemma AdmissibleLength(u: Setup, values: seq<Entered>)
    ensures AllAdmissible(u, values) ==> |values| == |u.fields|
  {
  }

  /** Feeds the keys to a form until one ends it. */
  method PressAll(form: Form, keys: seq<string>) returns (answer: Answer)
    requires form.Valid()
    modifies form
    ensures form.Valid()
    ensures (form.State(), answer) == Keyed(Setup(form.number, form.path, form.fields), old(form.State()), keys)
  {
    hide Press;
    ghost var u := Setup(form.number, form.path, form.fields);
    assert keys[0..] == keys;
    for i := 0 to |keys|
      invariant form.Valid()
      invariant Keyed(u, form.State(), keys[i..]) == Keyed(u, old(form.State()), keys)
    {
      assert keys[i..][1..] == keys[i + 1..];
      answer := form.Handle(keys[i]);
      if !answer.Stay? {
        return;
      }
    }
    answer := Stay;
  }

  /** One visit to a command's form: the keys pressed, and what the confirmed line does. */
  method VisitForm(cli: Cli, path: seq<string>, command: CommandConfig, keys: seq<string>) returns (outcome: Option<Outcome>)
    requires FieldsOf(command) != []
    ensures outcome.Some? <==> Keyed(SetupOf(cli, path, command), BLANK, keys).1.Run?
    ensures var form := FilledBy(cli, path, command, keys);
            outcome.Some? && Declared(cli, form) && Answered(cli, form) ==>
              EndsAsEntered(cli, form, outcome.value)
  {
    hide Keyed, Tokens, Executes, EndsAsEntered, Declared, Answered, FilledBy, AskedArgs, AskedOptions;
    var fields := CollectRequiredFields(DeclaredArgs(command), command.options);
    var form := new Form(path, fields, cli.number);
    var answer := PressAll(form, keys);
    if !answer.Run? {
      return None;
    }
    var ran, byName, table := Execute(cli, answer.args);
    ghost var filled := FilledBy(cli, path, command, keys);
    if Declared(cli, filled) && Answered(cli, filled) {
      KeysRunAsEntered(cli, path, command, keys, byName, table, ran);
    }
    return Some(ran);
  }
}
