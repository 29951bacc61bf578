/** Merging hooks settles at once, keeps the user's entries, and is undone by removal. */
module HookLaws {
  import opened Wrappers
  import opened Json
  import opened JsonObject
  import opened JsonHooks

  // ---------- what each event holds ----------

  function StripValue(spec: Spec, keepManaged: bool, name: string, value: Option<Json>): Option<Json> {
    if value.None? || !value.value.Arr? then value
    else if CleanItems(spec, value.value.items) == [] && !(keepManaged && Wants(spec.desired, name)) then None
    else Some(Arr(CleanItems(spec, value.value.items)))
  }

  lemma LookupAppend(o: Object, m: Member, name: string)
    ensures Lookup(o + [m], name)
         == if Lookup(o, name).Some? then Lookup(o, name) else if m.name == name then Some(m.value) else None
  {
    if Find(o, name) < |o| {
      FindsFirst(o + [m], name, Find(o, name));
    } else if m.name == name {
      FindsFirst(o + [m], name, |o|);
    } else {
      assert forall i | 0 <= i < |o + [m]| :: (o + [m])[i].name != name;
    }
  }

  lemma StripOneIs(spec: Spec, keepManaged: bool, m: Member)
    ensures var v := StripValue(spec, keepManaged, m.name, Some(m.value));
            StripOne(spec, keepManaged, m) == if v.None? then [] else [Member(m.name, v.value)]
  {
  }

  lemma {:induction false} StrippedUnique(spec: Spec, keepManaged: bool, events: Object)
    requires Unique(events)
    ensures Unique(Stripped(spec, keepManaged, events))
  {
    hide StripOne, StripValue;
    if events != [] {
      var n := |events| - 1;
      StrippedUnique(spec, keepManaged, events[..n]);
      StrippedNames(spec, keepManaged, events[..n]);
      NotBefore(events, n);
      StripOneIs(spec, keepManaged, events[n]);
      var before := Stripped(spec, keepManaged, events[..n]);
      assert forall i | 0 <= i < |before| :: before[i] in before;
    }
  }

  lemma {:induction false} StrippedLookup(spec: Spec, keepManaged: bool, events: Object, name: string)
    requires Unique(events)
    ensures Unique(Stripped(spec, keepManaged, events))
    ensures Lookup(Stripped(spec, keepManaged, events), name) == StripValue(spec, keepManaged, name, Lookup(events, name))
  {
    StrippedUnique(spec, keepManaged, events);
    if events != [] {
      hide StripOne, CleanItems, Wants, Unique;
      var n := |events| - 1;
      var m := events[n];
      var before := Stripped(spec, keepManaged, events[..n]);
      InitUnique(events);
      StrippedLookup(spec, keepManaged, events[..n], name);
      assert events == events[..n] + [m];
      LookupAppend(events[..n], m, name);
      StripOneIs(spec, keepManaged, m);
      var v := StripValue(spec, keepManaged, m.name, Some(m.value));
      if v.None? {
        assert before + [] == before;
      } else {
        LookupAppend(before, Member(m.name, v.value), name);
      }
    }
  }

  lemma InitUnique(events: Object)
    requires Unique(events) && events != []
    ensures Unique(events[..|events| - 1])
    ensures Lookup(events[..|events| - 1], events[|events| - 1].name) == None
  {
  }

  function WantedAt(desired: seq<Wanted>, name: string): Option<seq<Json>> {
    if desired == [] then None
    else if desired[|desired| - 1].event == name then Some(desired[|desired| - 1].entries)
    else WantedAt(desired[..|desired| - 1], name)
  }

  lemma {:induction false} WantedIff(desired: seq<Wanted>, name: string)
    ensures Wants(desired, name) <==> WantedAt(desired, name).Some?
    ensures WantedAt(desired, name).Some? ==> Wanted(name, WantedAt(desired, name).value) in desired
  {
    if desired != [] {
      var n := |desired| - 1;
      WantedIff(desired[..n], name);
      assert forall i | 0 <= i < n :: desired[..n][i] == desired[i];
      assert desired[n] == Wanted(desired[n].event, desired[n].entries);
    }
  }

  predicate DistinctEvents(desired: seq<Wanted>) {
    forall i, j | 0 <= i < j < |desired| :: desired[i].event != desired[j].event
  }

  lemma {:induction false} AppendedLookup(events: Object, desired: seq<Wanted>, name: string)
    requires Unique(events) && DistinctEvents(desired)
    ensures Unique(Appended(events, desired))
    ensures Lookup(Appended(events, desired), name)
         == if WantedAt(desired, name).Some? then Some(Arr(Items(Lookup(events, name)) + WantedAt(desired, name).value))
            else Lookup(events, name)
    ensures Wants(desired, name) || Find(events, name) < |events| ==> Find(Appended(events, desired), name) < |Appended(events, desired)|
  {
    if desired != [] {
      var n := |desired| - 1;
      var w := desired[n];
      var before := Appended(events, desired[..n]);
      AppendedLookup(events, desired[..n], name);
      AppendedLookup(events, desired[..n], w.event);
      WantedIff(desired[..n], w.event);
      WantedIff(desired, name);
      PutLooksUp(before, w.event, Arr(Items(Lookup(before, w.event)) + w.entries), name);
      assert WantedAt(desired[..n], w.event).None? by {
        assert forall i | 0 <= i < n :: desired[..n][i].event != w.event;
      }
    }
  }

  /** Each event holds the user's entries as cleaned, in order, and then exactly ours. */
  lemma MergedEvent(spec: Spec, events: Object, name: string)
    requires Unique(events) && DistinctEvents(spec.desired)
    ensures Unique(MergedEvents(spec, events))
    ensures Lookup(MergedEvents(spec, events), name)
         == if WantedAt(spec.desired, name).Some?
            then Some(Arr(CleanItems(spec, Items(Lookup(events, name))) + WantedAt(spec.desired, name).value))
            else StripValue(spec, true, name, Lookup(events, name))
  {
    StrippedLookup(spec, true, events, name);
    AppendedLookup(Stripped(spec, true, events), spec.desired, name);
    WantedIff(spec.desired, name);
  }

  // ---------- cleaning ----------

  /** Our entries are recognised, and a cleaned entry needs no more cleaning. */
  ghost predicate CleanFits(spec: Spec) {
    && (forall w | w in spec.desired :: forall e | e in w.entries :: CleanItem(spec, e) == [])
    && (forall e, c | c in CleanItem(spec, e) :: CleanItem(spec, c) == [c])
  }

  lemma {:induction false} CleanConcat(spec: Spec, a: seq<Json>, b: seq<Json>)
    ensures CleanItems(spec, a + b) == CleanItems(spec, a) + CleanItems(spec, b)
  {
    hide CleanItem;
    if a == [] {
      assert a + b == b;
    } else {
      assert (a + b)[1..] == a[1..] + b;
      CleanConcat(spec, a[1..], b);
    }
  }

  lemma {:induction false} CleanTwice(spec: Spec, items: seq<Json>)
    requires CleanFits(spec)
    ensures CleanItems(spec, CleanItems(spec, items)) == CleanItems(spec, items)
  {
    if items != [] {
      var one := CleanItem(spec, items[0]);
      CleanTwice(spec, items[1..]);
      CleanConcat(spec, one, CleanItems(spec, items[1..]));
      if one != [] {
        assert one[0] in one && one[1..] == [];
        assert CleanItem(spec, one[0]) == [one[0]];
        assert CleanItems(spec, one) == one;
      }
    }
  }

  lemma {:induction false} OursCleaned(spec: Spec, entries: seq<Json>)
    requires forall e | e in entries :: CleanItem(spec, e) == []
    ensures CleanItems(spec, entries) == []
  {
    if entries != [] {
      assert entries[0] in entries;
      OursCleaned(spec, entries[1..]);
    }
  }

  /** Entries that are neither ours nor mixed are all kept, in order. */
  lemma {:induction false} UserEntriesKept(spec: Spec, items: seq<Json>)
    requires forall e | e in items :: CleanItem(spec, e) == [e]
    ensures CleanItems(spec, items) == items
  {
    if items != [] {
      assert items[0] in items;
      UserEntriesKept(spec, items[1..]);
      assert items == [items[0]] + items[1..];
    }
  }

  lemma CleanWanted(spec: Spec, name: string, items: seq<Json>)
    requires CleanFits(spec) && WantedAt(spec.desired, name).Some?
    ensures CleanItems(spec, items + WantedAt(spec.desired, name).value) == CleanItems(spec, items)
  {
    var entries := WantedAt(spec.desired, name).value;
    WantedIff(spec.desired, name);
    assert Wanted(name, entries).entries == entries;
    OursCleaned(spec, entries);
    CleanConcat(spec, items, entries);
  }

  // ---------- merging twice ----------

  lemma {:induction false} NothingDropped(spec: Spec, events: Object)
    requires forall m | m in events :: StripOne(spec, true, m) != []
    ensures NameList(Stripped(spec, true, events)) == NameList(events)
  {
    hide CleanItems, Wants;
    if events != [] {
      var n := |events| - 1;
      assert events[n] in events && forall m | m in events[..n] :: m in events;
      NothingDropped(spec, events[..n]);
      assert NameList(events) == NameList(events[..n]) + [events[n].name];
      var one := StripOne(spec, true, events[n]);
      assert NameList(Stripped(spec, true, events)) == NameList(Stripped(spec, true, events[..n])) + NameList(one);
    }
  }

  lemma DistinctInit(desired: seq<Wanted>)
    requires DistinctEvents(desired) && desired != []
    ensures DistinctEvents(desired[..|desired| - 1])
  {
  }

  lemma {:induction false} NothingAppended(events: Object, desired: seq<Wanted>)
    requires Unique(events) && DistinctEvents(desired) && forall w | w in desired :: Find(events, w.event) < |events|
    ensures NameList(Appended(events, desired)) == NameList(events)
  {
    if desired != [] {
      hide Unique, DistinctEvents, NameList, Lookup, Put, Find;
      var n := |desired| - 1;
      var w := desired[n];
      var before := Appended(events, desired[..n]);
      assert w in desired && forall x | x in desired[..n] :: x in desired;
      DistinctInit(desired);
      NothingAppended(events, desired[..n]);
      AppendedLookup(events, desired[..n], w.event);
      PutLooksUp(before, w.event, Arr(Items(Lookup(before, w.event)) + w.entries), w.event);
    }
  }

  lemma EventsSettle(spec: Spec, events: Object)
    requires Unique(events) && DistinctEvents(spec.desired) && CleanFits(spec)
    ensures MergedEvents(spec, MergedEvents(spec, events)) == MergedEvents(spec, events)
  {
    hide CleanItems, CleanFits, Stripped, Appended, Wants;
    var once := MergedEvents(spec, events);
    var twice := MergedEvents(spec, once);
    MergedEvent(spec, events, "");
    MergedEvent(spec, once, "");
    forall name ensures Lookup(twice, name) == Lookup(once, name)
      ensures Lookup(once, name).Some? ==> StripValue(spec, true, name, Lookup(once, name)).Some?
    {
      SettledAt(spec, events, name);
    }
    forall m | m in once ensures StripOne(spec, true, m) != [] {
      var i :| 0 <= i < |once| && once[i] == m;
      FindIs(once, i);
      assert Lookup(once, m.name) == Some(m.value);
    }
    NothingDropped(spec, once);
    StrippedLookup(spec, true, once, "");
    forall w | w in spec.desired ensures Find(Stripped(spec, true, once), w.event) < |Stripped(spec, true, once)| {
      WantsMember(spec.desired, w);
      MergedEvent(spec, events, w.event);
      WantedIff(spec.desired, w.event);
      StrippedLookup(spec, true, once, w.event);
    }
    NothingAppended(Stripped(spec, true, once), spec.desired);
    SameObject(once, twice);
  }

  lemma WantsMember(desired: seq<Wanted>, w: Wanted)
    requires w in desired
    ensures Wants(desired, w.event)
  {
  }

  lemma SettledAt(spec: Spec, events: Object, name: string)
    requires Unique(events) && DistinctEvents(spec.desired) && CleanFits(spec)
    ensures var once := MergedEvents(spec, events);
            && Lookup(MergedEvents(spec, once), name) == Lookup(once, name)
            && (Lookup(once, name).Some? ==> StripValue(spec, true, name, Lookup(once, name)).Some?)
  {
    hide CleanItems, CleanFits, Stripped, Appended, Wants;
    var once := MergedEvents(spec, events);
    MergedEvent(spec, events, name);
    MergedEvent(spec, once, name);
    WantedIff(spec.desired, name);
    var items := Items(Lookup(events, name));
    CleanTwice(spec, items);
    if WantedAt(spec.desired, name).Some? {
      CleanWanted(spec, name, CleanItems(spec, items));
    }
  }

  predicate DefaultsFit(spec: Spec) {
    spec.defaults.Some? ==>
      spec.container.Some? && spec.defaults.value.name != spec.container.value && !Falsy(spec.defaults.value.value)
  }

  /** Merging a merged file changes nothing, not even the order of its keys. */
  lemma MergeTwice(spec: Spec, root: Object)
    requires Parsed(spec, Root(root)) && DistinctEvents(spec.desired) && CleanFits(spec) && DefaultsFit(spec)
    ensures Merged(spec, Merged(spec, root)) == Merged(spec, root)
  {
    hide MergedEvents, CleanFits, DistinctEvents, Falsy;
    var r := WithDefaults(spec, root);
    var events := MergedEvents(spec, Events(spec, r));
    EventsSettle(spec, Events(spec, r));
    if spec.container.Some? {
      var k := spec.container.value;
      if spec.defaults.Some? {
        PutLooksUp(root, spec.defaults.value.name, spec.defaults.value.value, spec.defaults.value.name);
        PutLooksUp(r, k, Obj(events), spec.defaults.value.name);
      }
      PutLooksUp(r, k, Obj(events), k);
      PutTwice(r, k, Obj(events), Obj(events));
    }
  }

  // ---------- removing ----------

  predicate ManagedAreArrays(spec: Spec, events: Object) {
    forall w | w in spec.desired :: Lookup(events, w.event).Some? ==> Lookup(events, w.event).value.Arr?
  }

  lemma {:induction false} StripAfterStrip(spec: Spec, events: Object)
    requires CleanFits(spec)
    ensures Stripped(spec, false, Stripped(spec, true, events)) == Stripped(spec, false, events)
  {
    hide CleanItems, CleanFits, Wants;
    if events != [] {
      var n := |events| - 1;
      var m := events[n];
      StripAfterStrip(spec, events[..n]);
      var before, one := Stripped(spec, true, events[..n]), StripOne(spec, true, m);
      if m.value.Arr? {
        CleanTwice(spec, m.value.items);
      }
      if one == [] {
        assert before + one == before;
        assert Stripped(spec, false, events) == Stripped(spec, false, events[..n]) + [];
      } else {
        assert (before + one)[..|before|] == before && (before + one)[|before|] == one[0];
      }
    }
  }

  lemma {:induction false} StripConcat(spec: Spec, a: Object, b: Object)
    ensures Stripped(spec, false, a + b) == Stripped(spec, false, a) + Stripped(spec, false, b)
  {
    hide StripOne;
    if b == [] {
      assert a + b == a;
    } else {
      var n := |b| - 1;
      assert (a + b)[..|a| + n] == a + b[..n] && (a + b)[|a| + n] == b[n];
      StripConcat(spec, a, b[..n]);
    }
  }

  lemma StripSingle(spec: Spec, m: Member)
    ensures Stripped(spec, false, [m]) == StripOne(spec, false, m)
  {
    assert [m][..0] == [];
  }

  /** Adding our entries to an array, or a new array of them, is invisible to removal. */
  lemma PutInvisible(spec: Spec, events: Object, name: string)
    requires CleanFits(spec) && WantedAt(spec.desired, name).Some?
    requires Lookup(events, name).Some? ==> Lookup(events, name).value.Arr?
    ensures Stripped(spec, false, Put(events, name, Arr(Items(Lookup(events, name)) + WantedAt(spec.desired, name).value)))
         == Stripped(spec, false, events)
  {
    hide CleanItems, CleanFits, Stripped, Wants;
    var items := Items(Lookup(events, name));
    var now := Member(name, Arr(items + WantedAt(spec.desired, name).value));
    CleanWanted(spec, name, items);
    var k := Find(events, name);
    if k < |events| {
      assert events == events[..k] + [events[k]] + events[k + 1..];
      assert events[k := now] == events[..k] + [now] + events[k + 1..];
      StripConcat(spec, events[..k] + [events[k]], events[k + 1..]);
      StripConcat(spec, events[..k] + [now], events[k + 1..]);
      StripConcat(spec, events[..k], [events[k]]);
      StripConcat(spec, events[..k], [now]);
      StripSingle(spec, events[k]);
      StripSingle(spec, now);
    } else {
      OursCleaned(spec, []);
      StripConcat(spec, events, [now]);
      StripSingle(spec, now);
      assert Stripped(spec, false, events) + [] == Stripped(spec, false, events);
    }
  }

  lemma {:induction false} AppendInvisible(spec: Spec, events: Object, n: nat)
    requires CleanFits(spec) && Unique(events) && DistinctEvents(spec.desired) && ManagedAreArrays(spec, events) && n <= |spec.desired|
    ensures Stripped(spec, false, Appended(events, spec.desired[..n])) == Stripped(spec, false, events)
  {
    hide CleanFits, Stripped;
    if n > 0 {
      var desired, w := spec.desired[..n], spec.desired[n - 1];
      assert desired[..n - 1] == spec.desired[..n - 1] && w in spec.desired;
      AppendInvisible(spec, events, n - 1);
      assert DistinctEvents(desired[..n - 1]);
      AppendedLookup(events, desired[..n - 1], w.event);
      WantedIff(desired[..n - 1], w.event);
      WantedIs(spec.desired, n - 1);
      PutInvisible(spec, Appended(events, desired[..n - 1]), w.event);
    }
  }

  lemma {:induction false} WantedIs(desired: seq<Wanted>, i: nat)
    requires DistinctEvents(desired) && i < |desired|
    ensures WantedAt(desired, desired[i].event) == Some(desired[i].entries)
    ensures WantedAt(desired[..i], desired[i].event) == None
  {
    var n := |desired| - 1;
    WantedIff(desired[..i], desired[i].event);
    if i < n {
      assert desired[..n][..i] == desired[..i];
      WantedIs(desired[..n], i);
    }
  }

  /** At the level of events, removal undoes a merge exactly when it did not replace anything but arrays. */
  lemma EventsRestored(spec: Spec, events: Object)
    requires CleanFits(spec) && Unique(events) && DistinctEvents(spec.desired)
    ensures Stripped(spec, false, MergedEvents(spec, events)) == Stripped(spec, false, events) <==> ManagedAreArrays(spec, events)
  {
    hide CleanFits, CleanItems, Stripped, Appended, Wants, DistinctEvents;
    var kept := Stripped(spec, true, events);
    StripAfterStrip(spec, events);
    StrippedLookup(spec, true, events, "");
    if ManagedAreArrays(spec, events) {
      forall w | w in spec.desired ensures Lookup(kept, w.event).Some? ==> Lookup(kept, w.event).value.Arr? {
        StrippedLookup(spec, true, events, w.event);
      }
      AppendInvisible(spec, kept, |spec.desired|);
      assert spec.desired[..|spec.desired|] == spec.desired;
    } else {
      var w :| w in spec.desired && Lookup(events, w.event).Some? && !Lookup(events, w.event).value.Arr?;
      WantsMember(spec.desired, w);
      WantedIff(spec.desired, w.event);
      MergedEvent(spec, events, w.event);
      StrippedLookup(spec, false, events, w.event);
      StrippedLookup(spec, false, MergedEvents(spec, events), w.event);
    }
  }

  /** The event map is where the merge leaves it, or removal takes an added one away again. */
  predicate Restorable(spec: Spec, root: Object) {
    && (HasEvents(spec, root) || (spec.dropEmpty && Lookup(root, spec.container.value).None?))
    && ManagedAreArrays(spec, Events(spec, root))
  }

  /** Removing after our entries were merged in is removing alone, exactly when that replaced nothing of the user's. */
  lemma RemoveAfterEvents(spec: Spec, root: Object)
    requires Unique(root) && Unique(Events(spec, root)) && DistinctEvents(spec.desired) && CleanFits(spec)
    ensures Removed(spec, WithEvents(spec, root, MergedEvents(spec, Events(spec, root)))) == Removed(spec, root)
       <==> Restorable(spec, root)
  {
    hide CleanFits, Stripped, MergedEvents, ManagedAreArrays, DistinctEvents;
    var events := Events(spec, root);
    var merged := MergedEvents(spec, events);
    EventsRestored(spec, events);
    if spec.container.Some? {
      var k := spec.container.value;
      var left := Stripped(spec, false, merged);
      PutLooksUp(root, k, Obj(merged), k);
      PutTwice(root, k, Obj(merged), Obj(left));
      DropPut(root, k, Obj(merged));
      DropLooksUp(root, k, k);
      PutLooksUp(root, k, Obj(left), k);
      PutLooksUp(root, k, Obj(Stripped(spec, false, events)), k);
      if !HasEvents(spec, root) {
        NoneManaged(spec);
      }
    }
  }

  /** Removal touches nothing at the root but the container of the events. */
  lemma RemovedElsewhere(spec: Spec, root: Object, name: string)
    requires Unique(root) && spec.container.Some? && name != spec.container.value
    ensures Lookup(Removed(spec, root), name) == Lookup(root, name)
  {
    hide Stripped;
    var k := spec.container.value;
    DropLooksUp(root, k, name);
    PutLooksUp(root, k, Obj(Stripped(spec, false, Events(spec, root))), name);
  }

  /** Removing after a merge is removing alone, exactly when the merge replaced nothing of the user's and set no default. */
  lemma RemoveAfterMerge(spec: Spec, root: Object)
    requires Parsed(spec, Root(root)) && DistinctEvents(spec.desired) && CleanFits(spec) && DefaultsFit(spec)
    ensures Removed(spec, Merged(spec, root)) == Removed(spec, root) <==> Restorable(spec, root) && WithDefaults(spec, root) == root
  {
    hide CleanFits, MergedEvents, Removed, DistinctEvents, Restorable, Falsy;
    var r := WithDefaults(spec, root);
    if r == root {
      RemoveAfterEvents(spec, root);
    } else {
      var m, k := spec.defaults.value, spec.container.value;
      var events := MergedEvents(spec, Events(spec, r));
      PutLooksUp(root, m.name, m.value, m.name);
      PutLooksUp(r, k, Obj(events), m.name);
      RemovedElsewhere(spec, Merged(spec, root), m.name);
      RemovedElsewhere(spec, root, m.name);
    }
  }

  lemma NoneManaged(spec: Spec)
    ensures ManagedAreArrays(spec, []) && Stripped(spec, false, []) == []
  {
  }

  /** Item by item and in order: what is no object or array stays, the rest is what the agent's cleaner makes of it. */
  lemma CleanedInOrder(spec: Spec, before: seq<Json>, item: Json, after: seq<Json>)
    ensures CleanItems(spec, before + [item] + after) ==
              CleanItems(spec, before)
              + (if item.Obj? || item.Arr? then (match spec.cleanEntry(item) case None => [] case Some(kept) => [kept]) else [item])
              + CleanItems(spec, after)
    ensures CleanItems(spec, []) == []
  {
    hide CleanItem;
    CleanConcat(spec, before, [item] + after);
    assert before + [item] + after == before + ([item] + after) && ([item] + after)[1..] == after;
    CleanOne(spec, item);
  }

  lemma CleanOne(spec: Spec, item: Json)
    ensures CleanItem(spec, item) ==
              if item.Obj? || item.Arr? then (match spec.cleanEntry(item) case None => [] case Some(kept) => [kept]) else [item]
  {
  }

  // ---------- the rest of the file ----------

  /** Merging and removing touch nothing at the root but the container of the events and the default. */
  lemma RootKept(spec: Spec, root: Object, name: string)
    requires Unique(root) && spec.container.Some? && name != spec.container.value
    requires spec.defaults.Some? ==> name != spec.defaults.value.name
    ensures Lookup(Merged(spec, root), name) == Lookup(root, name)
    ensures Lookup(Removed(spec, root), name) == Lookup(root, name)
  {
    hide Stripped, MergedEvents;
    var r := WithDefaults(spec, root);
    if spec.defaults.Some? {
      PutLooksUp(root, spec.defaults.value.name, spec.defaults.value.value, name);
    }
    PutLooksUp(r, spec.container.value, Obj(MergedEvents(spec, Events(spec, r))), name);
    RemovedElsewhere(spec, root, name);
  }

  /** A default is set where the file has none, or only an empty one, and never over a value of the user's. */
  lemma DefaultSet(spec: Spec, root: Object)
    requires Unique(root) && DefaultsFit(spec) && spec.defaults.Some?
    ensures var name := spec.defaults.value.name;
            Lookup(Merged(spec, root), name) ==
              if Lookup(root, name).Some? && Lookup(root, name).value !in [Null, Bool(false), Num(0.0), Str("")]
              then Lookup(root, name) else Some(spec.defaults.value.value)
  {
    hide Stripped, MergedEvents;
    var r, name := WithDefaults(spec, root), spec.defaults.value.name;
    PutLooksUp(root, name, spec.defaults.value.value, name);
    PutLooksUp(r, spec.container.value, Obj(MergedEvents(spec, Events(spec, r))), name);
  }

  /** After a removal an event holds the user's entries as cleaned, in order, and is gone if there are none. */
  lemma RemovedEvent(spec: Spec, events: Object, name: string)
    requires Unique(events)
    ensures var was := Lookup(events, name);
            Lookup(Stripped(spec, false, events), name) ==
              if was.Some? && was.value.Arr?
              then (if CleanItems(spec, was.value.items) == [] then None else Some(Arr(CleanItems(spec, was.value.items))))
              else was
  {
    StrippedLookup(spec, false, events, name);
  }

  /** Removal rewrites the event map in its place, or drops it when an agent wants no empty one left. */
  lemma RemovedRoot(spec: Spec, root: Object)
    requires Unique(root) && spec.container.Some?
    ensures var k := spec.container.value;
            var was := Lookup(root, k);
            Lookup(Removed(spec, root), k) ==
              if was.Some? && was.value.Obj?
              then (if spec.dropEmpty && Stripped(spec, false, was.value.entries) == [] then None
                    else Some(Obj(Stripped(spec, false, was.value.entries))))
              else was
  {
    hide Stripped;
    var k := spec.container.value;
    DropLooksUp(root, k, k);
    PutLooksUp(root, k, Obj(Stripped(spec, false, Events(spec, root))), k);
  }
}
