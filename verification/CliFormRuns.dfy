/** Whole sessions of the interactive form. */
module CliFormRuns {
  import opened Wrappers
  import opened Text
  import opened CliParser
  import opened CliForm

  datatype Setup = Setup(number: string -> Option<real>, path: seq<string>, fields: seq<Field>)

  predicate Ready(u: Setup, f: Filling) {
    u.fields != [] && Coherent(u.number, u.fields, f)
  }

  predicate AllAdmissible(u: Setup, values: seq<Entered>) {
    |values| == |u.fields| && forall i | 0 <= i < |values| :: Admissible(u.number, u.fields[i], values[i])
  }

  lemma PressKeepsReady(u: Setup, f: Filling, key: string)
    requires Ready(u, f)
    ensures Ready(u, Press(u.number, u.path, u.fields, f, key).0)
  {
    TrimTwice(f.buffer);
  }

  /** The keys up to the one that ends the form. */
  function Keyed(u: Setup, f: Filling, keys: seq<string>): (r: (Filling, Answer))
    requires Ready(u, f)
    decreases |keys|
  {
    if keys == [] then (f, Stay)
    else
      var next := Press(u.number, u.path, u.fields, f, keys[0]);
      PressKeepsReady(u, f, keys[0]);
      if next.1.Stay? then Keyed(u, next.0, keys[1..]) else next
  }

  /** Whatever keys are pressed, a command runs only once every field holds an answer that suits it. */
  lemma {:induction false} RunIsComplete(u: Setup, f: Filling, keys: seq<string>)
    requires Ready(u, f)
    ensures var end := Keyed(u, f, keys);
            && Ready(u, end.0)
            && (end.1.Run? ==> AllAdmissible(u, end.0.values) && end.1.args == u.path + Tokens(u.fields, end.0.values))
    decreases |keys|
  {
    if keys != [] {
      PressKeepsReady(u, f, keys[0]);
      var next := Press(u.number, u.path, u.fields, f, keys[0]);
      if next.1.Stay? {
        RunIsComplete(u, next.0, keys[1..]);
      }
    }
  }

  // ---------- every set of answers can be given ----------

  predicate Printable(s: string) {
    forall c | c in s :: c >= ' ' && c != '\U{7F}'
  }

  function Letters(s: string): seq<string> {
    seq(|s|, i requires 0 <= i < |s| => [s[i]])
  }

  function IndexIn(s: string, all: seq<string>): (k: nat)
    requires s in all
    ensures k < |all| && all[k] == s
  {
    if all[0] == s then 0 else 1 + IndexIn(s, all[1..])
  }

  function KeysFor(field: Field, value: Entered): seq<string> {
    if value.Chosen? then [if value.on then "y" else "n"]
    else if value.text in field.enumVals then seq(IndexIn(value.text, field.enumVals), i => DOWN) + [ENTER]
    else Letters(value.text) + [ENTER]
  }

  function KeysForAll(fields: seq<Field>, values: seq<Entered>): seq<string>
    requires |fields| == |values|
  {
    if fields == [] then [ENTER] else KeysFor(fields[0], values[0]) + KeysForAll(fields[1..], values[1..])
  }

  /** A form about to ask for field `i`. */
  predicate AtField(u: Setup, f: Filling, i: nat) {
    Ready(u, f) && f.index == |f.values| == i && f.buffer == "" && f.enumIndex == 0
  }

  lemma {:induction false} KeyedTwice(u: Setup, f: Filling, first: seq<string>, rest: seq<string>)
    requires Ready(u, f) && Keyed(u, f, first).1.Stay?
    ensures Ready(u, Keyed(u, f, first).0)
    ensures Keyed(u, f, first + rest) == Keyed(u, Keyed(u, f, first).0, rest)
    decreases |first|
  {
    if first == [] {
      assert first + rest == rest;
    } else {
      PressKeepsReady(u, f, first[0]);
      assert (first + rest)[1..] == first[1..] + rest;
      KeyedTwice(u, Press(u.number, u.path, u.fields, f, first[0]).0, first[1..], rest);
    }
  }

  lemma {:induction false} TypeText(u: Setup, f: Filling, text: string)
    requires Ready(u, f) && !f.confirming && Printable(text)
    requires u.fields[f.index].enumVals == [] && !u.fields[f.index].kind.BooleanType?
    ensures Keyed(u, f, Letters(text)) == (f.(buffer := f.buffer + text), Stay)
    decreases |text|
  {
    if text == [] {
      assert f.buffer + text == f.buffer;
    } else {
      assert text[0] in text;
      assert Letters(text)[1..] == Letters(text[1..]);
      assert forall c | c in text[1..] :: c in text;
      var next := f.(buffer := f.buffer + [text[0]]);
      assert Press(u.number, u.path, u.fields, f, [text[0]]) == (next, Stay);
      TypeText(u, next, text[1..]);
      assert next.buffer + text[1..] == f.buffer + text;
    }
  }

  lemma {:induction false} MoveDown(u: Setup, f: Filling, k: nat)
    requires Ready(u, f) && !f.confirming && f.enumIndex + k < |u.fields[f.index].enumVals|
    ensures Keyed(u, f, seq(k, i => DOWN)) == (f.(enumIndex := f.enumIndex + k), Stay)
    decreases k
  {
    if k > 0 {
      assert seq(k, i => DOWN)[1..] == seq(k - 1, i => DOWN);
      MoveDown(u, f.(enumIndex := f.enumIndex + 1), k - 1);
    }
  }

  lemma AnswerEnum(u: Setup, f: Filling, i: nat, value: Entered)
    requires AtField(u, f, i) && i < |u.fields| && value.Typed? && value.text in u.fields[i].enumVals
    ensures Keyed(u, f, KeysFor(u.fields[i], value)) == (Committed(u.fields, f, value), Stay)
  {
    hide Trim, Admissible, Committed;
    var k := IndexIn(value.text, u.fields[i].enumVals);
    MoveDown(u, f, k);
    KeyedTwice(u, f, seq(k, i => DOWN), [ENTER]);
    assert [ENTER][1..] == [];
    CommittedFromAny(u.fields, f, f.(enumIndex := k), value);
  }

  lemma AnswerText(u: Setup, f: Filling, i: nat, value: Entered)
    requires AtField(u, f, i) && i < |u.fields| && Admissible(u.number, u.fields[i], value)
    requires value.Typed? && u.fields[i].enumVals == [] && Printable(value.text)
    ensures Keyed(u, f, KeysFor(u.fields[i], value)) == (Committed(u.fields, f, value), Stay)
  {
    hide Trim, Committed;
    TypeText(u, f, value.text);
    assert "" + value.text == value.text;
    KeyedTwice(u, f, Letters(value.text), [ENTER]);
    assert [ENTER][1..] == [];
    CommittedFromAny(u.fields, f, f.(buffer := value.text), value);
  }

  lemma CommittedFromAny(fields: seq<Field>, f: Filling, g: Filling, value: Entered)
    requires f.index == g.index && f.values == g.values
    ensures Committed(fields, f, value) == Committed(fields, g, value)
  {
  }

  lemma AnswerField(u: Setup, f: Filling, i: nat, value: Entered)
    requires AtField(u, f, i) && i < |u.fields| && Admissible(u.number, u.fields[i], value)
    requires value.Typed? ==> Printable(value.text)
    ensures Keyed(u, f, KeysFor(u.fields[i], value)) == (Committed(u.fields, f, value), Stay)
  {
    hide Trim, Committed;
    if value.Chosen? {
      assert KeysFor(u.fields[i], value)[1..] == [];
    } else if value.text in u.fields[i].enumVals {
      hide AtField, Keyed, Admissible, KeysFor;
      AnswerEnum(u, f, i, value);
    } else {
      hide AtField, Keyed, KeysFor;
      AnswerText(u, f, i, value);
    }
  }

  lemma {:induction false} AnswerRest(u: Setup, f: Filling, i: nat, values: seq<Entered>)
    requires AtField(u, f, i) && i <= |u.fields| && AllAdmissible(u, values) && f.values == values[..i]
    requires forall v | v in values && v.Typed? :: Printable(v.text)
    ensures Keyed(u, f, KeysForAll(u.fields[i..], values[i..])).1 == Run(u.path + Tokens(u.fields, values))
    decreases |u.fields| - i
  {
    if i == |u.fields| {
      assert values[..i] == values;
    } else {
      AnswerField(u, f, i, values[i]);
      var next := Committed(u.fields, f, values[i]);
      assert next.values == values[..i + 1];
      assert u.fields[i..][1..] == u.fields[i + 1..] && values[i..][1..] == values[i + 1..];
      KeyedTwice(u, f, KeysFor(u.fields[i], values[i]), KeysForAll(u.fields[i + 1..], values[i + 1..]));
      AnswerRest(u, next, i + 1, values);
    }
  }

  /** Any printable, suitable answers can be entered, and then exactly those are printed. */
  lemma AnyAnswersCanBeGiven(u: Setup, values: seq<Entered>)
    requires u.fields != [] && AllAdmissible(u, values)
    requires forall v | v in values && v.Typed? :: Printable(v.text)
    ensures Keyed(u, BLANK, KeysForAll(u.fields, values)).1 == Run(u.path + Tokens(u.fields, values))
  {
    assert u.fields[0..] == u.fields && values[0..] == values;
    AnswerRest(u, BLANK, 0, values);
  }
}
