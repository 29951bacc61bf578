/** The entry shape shared by Claude, Codex and Droid: a definition holding a list of inner hooks. */
module NestedHooks {
  import opened Wrappers
  import opened Json
  import opened JsonObject
  import opened JsonHooks
  import opened HookLaws

  function Command(hook: Json): Option<string> {
    if hook.Obj? && Lookup(hook.entries, "command").Some? && Lookup(hook.entries, "command").value.Str?
    then Some(Lookup(hook.entries, "command").value.text)
    else None
  }

  function Foreign(isManaged: Option<string> -> bool, hooks: seq<Json>): seq<Json> {
    if hooks == [] then []
    else (if isManaged(Command(hooks[0])) then [] else [hooks[0]]) + Foreign(isManaged, hooks[1..])
  }

  /** Drops our inner hooks; the whole definition goes when nothing else is left in it. */
  function CleanNestedHookDefinition(isManaged: Option<string> -> bool, definition: Json): Option<Json> {
    if !definition.Obj? || Lookup(definition.entries, "hooks").None? || !Lookup(definition.entries, "hooks").value.Arr? then Some(definition)
    else
      var hooks := Lookup(definition.entries, "hooks").value.items;
      var kept := Foreign(isManaged, hooks);
      if |kept| == |hooks| then Some(definition)
      else if kept == [] then None
      else Some(Obj(Put(definition.entries, "hooks", Arr(kept))))
  }

  function NestedEntry(matcher: Option<string>, command: string): Json {
    var hook := Obj([Member("type", Str("command")), Member("command", Str(command))]);
    Obj((if matcher.Some? then [Member("matcher", Str(matcher.value))] else []) + [Member("hooks", Arr([hook]))])
  }

  function BuildNestedDesiredEntries(events: seq<(string, Option<string>)>, command: string): seq<Wanted> {
    seq(|events|, i requires 0 <= i < |events| => Wanted(events[i].0, [NestedEntry(events[i].1, command)]))
  }

  lemma {:induction false} ForeignTwice(isManaged: Option<string> -> bool, hooks: seq<Json>)
    ensures Foreign(isManaged, Foreign(isManaged, hooks)) == Foreign(isManaged, hooks)
    ensures |Foreign(isManaged, hooks)| <= |hooks|
    ensures |Foreign(isManaged, hooks)| == |hooks| <==> forall h | h in hooks :: !isManaged(Command(h))
  {
    if hooks != [] {
      ForeignTwice(isManaged, hooks[1..]);
      var rest := Foreign(isManaged, hooks[1..]);
      assert hooks == [hooks[0]] + hooks[1..];
      assert ([hooks[0]] + rest)[1..] == rest && [] + rest == rest;
    }
  }

  lemma CleanedSettled(isManaged: Option<string> -> bool, definition: Json)
    ensures var c := CleanNestedHookDefinition(isManaged, definition);
            c.Some? ==> CleanNestedHookDefinition(isManaged, c.value) == c
  {
    var c := CleanNestedHookDefinition(isManaged, definition);
    if c.Some? && c.value != definition {
      var hooks := Lookup(definition.entries, "hooks").value.items;
      var kept := Foreign(isManaged, hooks);
      ForeignTwice(isManaged, hooks);
      FindsFirst(c.value.entries, "hooks", Find(definition.entries, "hooks"));
      assert Lookup(c.value.entries, "hooks") == Some(Arr(kept));
    }
  }

  lemma OwnEntryCleaned(isManaged: Option<string> -> bool, matcher: Option<string>, command: string)
    requires isManaged(Some(command))
    ensures CleanNestedHookDefinition(isManaged, NestedEntry(matcher, command)) == None
  {
    var entry := NestedEntry(matcher, command);
    var k := if matcher.Some? then 1 else 0;
    var hook := entry.entries[k].value.items[0];
    assert entry.entries[0].name == if matcher.Some? then "matcher" else "hooks";
    assert "matcher" != "hooks" && "type" != "command" by { assert |"matcher"| != |"hooks"| && |"type"| != |"command"|; }
    FindsFirst(entry.entries, "hooks", k);
    FindsFirst(hook.entries, "command", 1);
    assert Command(hook) == Some(command);
    assert Foreign(isManaged, [hook]) == [] by { assert [hook][1..] == []; }
  }

  /** The shared cleaner and the entries it builds meet what the merge laws ask of a spec. */
  lemma NestedSpecFits(spec: Spec, isManaged: Option<string> -> bool, events: seq<(string, Option<string>)>, command: string)
    requires isManaged(Some(command)) && spec.desired == BuildNestedDesiredEntries(events, command)
    requires forall d :: spec.cleanEntry(d) == CleanNestedHookDefinition(isManaged, d)
    ensures CleanFits(spec)
  {
    hide CleanNestedHookDefinition;
    forall w | w in spec.desired ensures forall e | e in w.entries :: CleanItem(spec, e) == [] {
      var i :| 0 <= i < |events| && w == Wanted(events[i].0, [NestedEntry(events[i].1, command)]);
      OwnEntryCleaned(isManaged, events[i].1, command);
    }
    forall e, c | c in CleanItem(spec, e) ensures CleanItem(spec, c) == [c] {
      CleanedSettled(isManaged, e);
      StaysNested(isManaged, e);
    }
  }

  lemma StaysNested(isManaged: Option<string> -> bool, e: Json)
    ensures var c := CleanNestedHookDefinition(isManaged, e); c.Some? && (e.Obj? || e.Arr?) ==> c.value.Obj? || c.value.Arr?
  {
  }

  /** Exactly our inner hooks are dropped from a definition; the rest of it stays. */
  lemma CleanKeepsForeign(isManaged: Option<string> -> bool, definition: Json)
    requires definition.Obj? && Lookup(definition.entries, "hooks").Some? && Lookup(definition.entries, "hooks").value.Arr?
    requires Unique(definition.entries)
    ensures var hooks := Lookup(definition.entries, "hooks").value.items;
            var c := CleanNestedHookDefinition(isManaged, definition);
            && (c.None? <==> hooks != [] && forall h | h in hooks :: isManaged(Command(h)))
            && (c.Some? ==>
                  && c.value.Obj? && Lookup(c.value.entries, "hooks") == Some(Arr(Foreign(isManaged, hooks)))
                  && forall name | name != "hooks" :: Lookup(c.value.entries, name) == Lookup(definition.entries, name))
  {
    var hooks := Lookup(definition.entries, "hooks").value.items;
    var kept := Foreign(isManaged, hooks);
    ForeignTwice(isManaged, hooks);
    ForeignAll(isManaged, hooks);
    NoneForeign(isManaged, hooks);
    forall name | name != "hooks" ensures Lookup(Put(definition.entries, "hooks", Arr(kept)), name) == Lookup(definition.entries, name) {
      PutLooksUp(definition.entries, "hooks", Arr(kept), name);
    }
    PutLooksUp(definition.entries, "hooks", Arr(kept), "hooks");
  }

  lemma {:induction false} ForeignAll(isManaged: Option<string> -> bool, hooks: seq<Json>)
    ensures |Foreign(isManaged, hooks)| == |hooks| ==> Foreign(isManaged, hooks) == hooks
  {
    if hooks != [] {
      ForeignAll(isManaged, hooks[1..]);
      ForeignTwice(isManaged, hooks[1..]);
      assert hooks == [hooks[0]] + hooks[1..];
    }
  }

  lemma {:induction false} NoneForeign(isManaged: Option<string> -> bool, hooks: seq<Json>)
    ensures Foreign(isManaged, hooks) == [] <==> forall h | h in hooks :: isManaged(Command(h))
  {
    if hooks != [] {
      NoneForeign(isManaged, hooks[1..]);
      assert hooks == [hooks[0]] + hooks[1..];
    }
  }
}
