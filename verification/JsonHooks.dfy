/** Managed hook entries in a user's JSON file that maps event names to arrays of entries. */
module JsonHooks {
  import opened Wrappers
  import opened Json
  import opened JsonObject

  datatype Wanted = Wanted(event: string, entries: seq<Json>)

  /** `defaults` is a root key set on merge when absent or falsy. */
  datatype Spec = Spec(
    container: Option<string>, desired: seq<Wanted>, cleanEntry: Json -> Option<Json>,
    defaults: Option<Member>, dropEmpty: bool)

  predicate Wants(desired: seq<Wanted>, event: string) {
    exists i | 0 <= i < |desired| :: desired[i].event == event
  }

  /** Anything but an object or an array is foreign and kept as it is. */
  function CleanItem(spec: Spec, item: Json): seq<Json> {
    if !item.Obj? && !item.Arr? then [item]
    else if spec.cleanEntry(item).None? then [] else [spec.cleanEntry(item).value]
  }

  function CleanItems(spec: Spec, items: seq<Json>): seq<Json> {
    if items == [] then [] else CleanItem(spec, items[0]) + CleanItems(spec, items[1..])
  }

  function StripOne(spec: Spec, keepManaged: bool, m: Member): Object {
    if !m.value.Arr? then [m]
    else if CleanItems(spec, m.value.items) == [] && !(keepManaged && Wants(spec.desired, m.name)) then []
    else [Member(m.name, Arr(CleanItems(spec, m.value.items)))]
  }

  function Stripped(spec: Spec, keepManaged: bool, events: Object): Object {
    if events == [] then []
    else Stripped(spec, keepManaged, events[..|events| - 1]) + StripOne(spec, keepManaged, events[|events| - 1])
  }

  method StripManagedEntries(spec: Spec, events: Object, keepManaged: bool) returns (r: Object)
    requires Unique(events)
    ensures r == Stripped(spec, keepManaged, events)
  {
    hide CleanItems, Wants, Stripped, StripOne, Put, Drop;
    r := events;
    NothingStripped(spec, keepManaged);
    assert events[..0] == [] && events[0..] == events;
    for i := 0 to |events|
      invariant r == Stripped(spec, keepManaged, events[..i]) + events[i..]
    {
      var m := events[i];
      StripNext(spec, keepManaged, events, i);
      if !m.value.Arr? {
        continue;
      }
      var kept := CleanItems(spec, m.value.items);
      if kept == [] && !(keepManaged && Wants(spec.desired, m.name)) {
        r := Drop(r, m.name);
      } else {
        r := Put(r, m.name, Arr(kept));
      }
    }
    assert events[..|events|] == events;
  }

  lemma NothingStripped(spec: Spec, keepManaged: bool)
    ensures Stripped(spec, keepManaged, []) == []
  {
  }

  lemma StripNext(spec: Spec, keepManaged: bool, events: Object, i: nat)
    requires Unique(events) && i < |events|
    ensures var now := Stripped(spec, keepManaged, events[..i]) + events[i..];
            var next := Stripped(spec, keepManaged, events[..i + 1]) + events[i + 1..];
            var m := events[i];
            if !m.value.Arr? then now == next
            else if CleanItems(spec, m.value.items) == [] && !(keepManaged && Wants(spec.desired, m.name)) then Drop(now, m.name) == next
            else Put(now, m.name, Arr(CleanItems(spec, m.value.items))) == next
  {
    hide CleanItems, Wants, Put, Drop;
    var before, m, after := Stripped(spec, keepManaged, events[..i]), events[i], events[i + 1..];
    assert events[..i + 1][..i] == events[..i];
    assert before + events[i..] == before + [m] + after;
    StrippedNames(spec, keepManaged, events[..i]);
    NotBefore(events, i);
    if m.value.Arr? {
      EditAt(before, m, after, Arr(CleanItems(spec, m.value.items)));
    }
  }

  lemma NotBefore(events: Object, i: nat)
    requires Unique(events) && i < |events|
    ensures forall j | 0 <= j < i :: events[..i][j].name != events[i].name
  {
  }

  lemma {:induction false} StrippedNames(spec: Spec, keepManaged: bool, events: Object)
    ensures forall s | s in Stripped(spec, keepManaged, events) :: exists j | 0 <= j < |events| :: events[j].name == s.name
  {
    hide CleanItems, Wants;
    if events != [] {
      var n := |events| - 1;
      StrippedNames(spec, keepManaged, events[..n]);
      assert forall j | 0 <= j < n :: events[..n][j] == events[j];
    }
  }

  lemma EditAt(before: Object, m: Member, after: Object, value: Json)
    requires forall s | s in before :: s.name != m.name
    ensures Put(before + [m] + after, m.name, value) == before + [Member(m.name, value)] + after
    ensures Drop(before + [m] + after, m.name) == before + after
  {
    var o, k := before + [m] + after, |before|;
    assert o[k] == m && forall i | 0 <= i < k :: o[i] in before;
    assert Find(o, m.name) == k;
  }

  // ---------- merging ----------

  function Items(value: Option<Json>): seq<Json> {
    if value.Some? && value.value.Arr? then value.value.items else []
  }

  function Appended(events: Object, desired: seq<Wanted>): Object {
    if desired == [] then events
    else
      var before := Appended(events, desired[..|desired| - 1]);
      var w := desired[|desired| - 1];
      Put(before, w.event, Arr(Items(Lookup(before, w.event)) + w.entries))
  }

  method AppendDesired(events: Object, desired: seq<Wanted>) returns (r: Object)
    ensures r == Appended(events, desired)
  {
    r := events;
    for i := 0 to |desired|
      invariant r == Appended(events, desired[..i])
    {
      assert desired[..i + 1][..i] == desired[..i];
      r := Put(r, desired[i].event, Arr(Items(Lookup(r, desired[i].event)) + desired[i].entries));
    }
    assert desired[..|desired|] == desired;
  }

  predicate Falsy(v: Json) {
    v == Null || v == Bool(false) || v == Num(0.0) || v == Str("")
  }

  function WithDefaults(spec: Spec, root: Object): Object {
    if spec.defaults.None? then root
    else
      var m := spec.defaults.value;
      var current := Lookup(root, m.name);
      if current.None? || Falsy(current.value) then Put(root, m.name, m.value) else root
  }

  function Events(spec: Spec, root: Object): Object {
    if spec.container.None? then root
    else
      var current := Lookup(root, spec.container.value);
      if current.Some? && current.value.Obj? then current.value.entries else []
  }

  function WithEvents(spec: Spec, root: Object, events: Object): Object {
    if spec.container.None? then events else Put(root, spec.container.value, Obj(events))
  }

  function MergedEvents(spec: Spec, events: Object): Object {
    Appended(Stripped(spec, true, events), spec.desired)
  }

  function Merged(spec: Spec, root: Object): Object {
    var r := WithDefaults(spec, root);
    WithEvents(spec, r, MergedEvents(spec, Events(spec, r)))
  }

  // ---------- removing ----------

  predicate HasEvents(spec: Spec, root: Object) {
    spec.container.Some? ==>
      var current := Lookup(root, spec.container.value); current.Some? && current.value.Obj?
  }

  function Removed(spec: Spec, root: Object): Object {
    if !HasEvents(spec, root) then root
    else
      var events := Stripped(spec, false, Events(spec, root));
      if spec.container.Some? && spec.dropEmpty && events == [] then Drop(root, spec.container.value)
      else WithEvents(spec, root, events)
  }

  // ---------- the file ----------

  datatype Content = Missing | Unparseable | NotObject | Root(root: Object)

  function RootOf(content: Content): Object {
    if content.Root? then content.root else []
  }

  /** Parsed objects never repeat a name. */
  predicate Parsed(spec: Spec, content: Content) {
    var root := RootOf(content);
    Unique(root) && Unique(Events(spec, root)) && Unique(Events(spec, WithDefaults(spec, root)))
  }

  class HooksFile {
    const spec: Spec
    var content: Content

    constructor (spec: Spec, content: Content)
      ensures this.spec == spec && this.content == content
    {
      this.spec, this.content := spec, content;
    }

    method Ensure()
      requires Parsed(spec, content)
      modifies this
      ensures content == if old(content).Unparseable? || old(content).NotObject? then old(content)
                         else Root(Merged(spec, RootOf(old(content))))
    {
      hide Stripped, Appended;
      if content.Unparseable? || content.NotObject? {
        return;
      }
      var root := WithDefaults(spec, RootOf(content));
      var events := StripManagedEntries(spec, Events(spec, root), true);
      events := AppendDesired(events, spec.desired);
      content := Root(WithEvents(spec, root, events));
    }

    method Remove()
      requires Parsed(spec, content)
      modifies this
      ensures content == if old(content).Root? then Root(Removed(spec, old(content).root)) else old(content)
    {
      hide Stripped;
      if !content.Root? || !HasEvents(spec, content.root) {
        return;
      }
      var root := content.root;
      var events := StripManagedEntries(spec, Events(spec, root), false);
      if spec.container.Some? && spec.dropEmpty && events == [] {
        content := Root(Drop(root, spec.container.value));
      } else {
        content := Root(WithEvents(spec, root, events));
      }
    }
  }
}
