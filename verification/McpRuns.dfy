/** Who owns an `mcpServers` entry over whole runs of syncs and user edits. */
module McpRuns {
  import opened Wrappers
  import opened Text
  import opened Json
  import opened McpServers

  /** A sync, whose ledger may fail to reach the disk, or a rewrite of the file by anyone else. */
  datatype Event = Sync(desired: map<string, Json>, meanwhile: Option<File>, saved: bool) | Edit(file: File)

  function Step(collate: Collation, s: State, event: Event): State {
    match event
    case Edit(file) => s.(file := file)
    case Sync(desired, meanwhile, saved) =>
      var after := Synced(collate, s, desired, meanwhile);
      if saved then after else after.(record := s.record)
  }

  function Run(collate: Collation, s: State, events: seq<Event>): State
    decreases |events|
  {
    if events == [] then s else Run(collate, Step(collate, s, events[0]), events[1..])
  }

  predicate Has(file: File, name: string) {
    name in Container(file)
  }

  /** Present in the file and not in the ledger. */
  predicate Users(s: State, name: string) {
    Has(s.file, name) && name !in Tracked(s.record)
  }

  // ---------- ownership ----------

  lemma SyncKeepsTheirs(collate: Collation, s: State, desired: map<string, Json>, name: string)
    requires Theirs(collate, Container(s.file), Tracked(s.record), name)
    ensures var after := Synced(collate, s, desired, None);
            && Has(after.file, name) && Container(after.file)[name] == Container(s.file)[name]
            && name !in Recorded(collate, Container(s.file), Tracked(s.record), desired)
  {
  }

  /** A completed sync that finds an entry changed from its recorded hash hands it to the user for good. */
  lemma ChangedBecomesUsers(collate: Collation, s: State, desired: map<string, Json>, name: string)
    requires Theirs(collate, Container(s.file), Tracked(s.record), name)
    ensures Users(Synced(collate, s, desired, None), name)
    ensures Container(Synced(collate, s, desired, None).file)[name] == Container(s.file)[name]
  {
    SyncKeepsTheirs(collate, s, desired, name);
  }

  predicate UserKeeps(events: seq<Event>, name: string) {
    forall e | e in events ::
      && (e.Edit? ==> Has(e.file, name))
      && (e.Sync? && e.meanwhile.Some? ==> Has(e.meanwhile.value, name))
  }

  /** The value the others last gave the entry. */
  function LastGiven(value: Json, events: seq<Event>, name: string): Json
    requires UserKeeps(events, name)
  {
    if events == [] then value
    else
      var e := events[|events| - 1];
      assert e in events;
      if e.Edit? then Container(e.file)[name]
      else if e.meanwhile.Some? then Container(e.meanwhile.value)[name]
      else
        assert forall x | x in events[..|events| - 1] :: x in events;
        LastGiven(value, events[..|events| - 1], name)
  }

  lemma StepKeepsUsers(collate: Collation, s: State, event: Event, name: string)
    requires Users(s, name) && UserKeeps([event], name)
    ensures Users(Step(collate, s, event), name)
    ensures Container(Step(collate, s, event).file)[name] == LastGiven(Container(s.file)[name], [event], name)
  {
    assert event in [event];
    assert LastGiven(Container(s.file)[name], [], name) == Container(s.file)[name];
    if event.Sync? {
      SyncKeepsTheirs(collate, s, event.desired, name);
      assert [event][..0] == [];
    }
  }

  lemma {:induction false} LastGivenTail(value: Json, events: seq<Event>, name: string)
    requires UserKeeps(events, name) && events != []
    ensures UserKeeps([events[0]], name) && UserKeeps(events[1..], name)
    ensures LastGiven(value, events, name) == LastGiven(LastGiven(value, [events[0]], name), events[1..], name)
  {
    var n := |events| - 1;
    assert events[n] in events && events[0] in events;
    assert forall x | x in events[1..] :: x in events;
    if n == 0 {
      assert events == [events[0]];
    } else {
      assert events[1..][n - 1] == events[n] && events[1..][..n - 1] == events[..n][1..];
      assert forall x | x in events[..n] :: x in events;
      LastGivenTail(value, events[..n], name);
      assert events[..n][0] == events[0];
    }
  }

  /** Once the user's, an entry stays as others last wrote it, over every run in which nobody deletes it. */
  lemma {:induction false} UsersForever(collate: Collation, s: State, events: seq<Event>, name: string)
    requires Users(s, name) && UserKeeps(events, name)
    ensures Users(Run(collate, s, events), name)
    ensures Container(Run(collate, s, events).file)[name] == LastGiven(Container(s.file)[name], events, name)
    decreases |events|
  {
    if events != [] {
      LastGivenTail(Container(s.file)[name], events, name);
      StepKeepsUsers(collate, s, events[0], name);
      UsersForever(collate, Step(collate, s, events[0]), events[1..], name);
    }
  }

  // ---------- convergence ----------

  /** A second sync with the same servers changes neither the file nor the ledger. */
  lemma SyncTwice(collate: Collation, s: State, desired: map<string, Json>)
    ensures var once := Synced(collate, s, desired, None); Synced(collate, once, desired, None) == once
  {
    hide Merged, Recorded;
    SettledTwice(collate, Container(s.file), Tracked(s.record), desired);
  }

  lemma SettledTwice(collate: Collation, container: map<string, Json>, tracked: map<string, Json>, desired: map<string, Json>)
    ensures var merged := Merged(collate, container, tracked, desired);
            var recorded := Recorded(collate, container, tracked, desired);
            Merged(collate, merged, recorded, desired) == merged && Recorded(collate, merged, recorded, desired) == recorded
  {
    hide Hash, Merged, Recorded;
    var merged := Merged(collate, container, tracked, desired);
    var recorded := Recorded(collate, container, tracked, desired);
    var again := Merged(collate, merged, recorded, desired);
    forall name ensures name in again <==> name in merged
      ensures name in merged ==> again[name] == merged[name]
      ensures name in Recorded(collate, merged, recorded, desired) <==> name in recorded
      ensures name in recorded ==> Recorded(collate, merged, recorded, desired)[name] == recorded[name]
    {
      MergedAt(collate, container, tracked, desired, name);
      RecordedAt(collate, container, tracked, desired, name);
      MergedAt(collate, merged, recorded, desired, name);
      RecordedAt(collate, merged, recorded, desired, name);
    }
    assert again == merged;
  }

  /** Desired servers are there afterwards, as the user's own or as desired, and reaped ones are gone. */
  lemma SyncConverges(collate: Collation, s: State, desired: map<string, Json>, name: string)
    requires Readable(s.file)
    ensures var after := Synced(collate, s, desired, None);
            && (name in desired ==> Has(after.file, name))
            && (name in desired && !Users(after, name) ==>
                  Hash(collate, Container(after.file)[name]) == Hash(collate, desired[name]))
            && (Ours(collate, Container(s.file), Tracked(s.record), name) && name !in desired ==> !Has(after.file, name))
  {
    hide Hash;
  }

  // ---------- uninstalling ----------

  function SyncAll(collate: Collation, s: State, rounds: seq<map<string, Json>>): State {
    if rounds == [] then s
    else Synced(collate, SyncAll(collate, s, rounds[..|rounds| - 1]), rounds[|rounds| - 1], None)
  }

  /** The user's entries as they were, plus intact ones of ours; nothing else in the file has changed. */
  predicate Installed(collate: Collation, original: File, s: State) {
    var before, now, tracked := Container(original), Container(s.file), Tracked(s.record);
    && tracked.Keys !! before.Keys && now.Keys == before.Keys + tracked.Keys
    && (forall name | name in before :: now[name] == before[name])
    && (forall name | name in tracked :: Hash(collate, now[name]) == tracked[name])
    && (s.record.Some? ==> tracked != map[])
    && ((s.file == original && tracked == map[]) || s.file == Written(original, now))
  }

  lemma SyncKeepsInstalled(collate: Collation, original: File, s: State, desired: map<string, Json>)
    requires Readable(original) && Installed(collate, original, s)
    ensures Installed(collate, original, Synced(collate, s, desired, None))
  {
    hide Hash, Merged, Recorded;
    var before, container, tracked := Container(original), Container(s.file), Tracked(s.record);
    var merged := Merged(collate, container, tracked, desired);
    var recorded := Recorded(collate, container, tracked, desired);
    OursReplaced(collate, before, container, tracked, desired);
    assert merged == container ==> recorded.Keys == merged.Keys - before.Keys == tracked.Keys;
  }

  lemma OursReplaced(collate: Collation, before: map<string, Json>, container: map<string, Json>, tracked: map<string, Json>, desired: map<string, Json>)
    requires tracked.Keys !! before.Keys && container.Keys == before.Keys + tracked.Keys
    requires forall name | name in before :: container[name] == before[name]
    requires forall name | name in tracked :: Hash(collate, container[name]) == tracked[name]
    ensures var merged := Merged(collate, container, tracked, desired);
            var recorded := Recorded(collate, container, tracked, desired);
            && recorded.Keys !! before.Keys && merged.Keys == before.Keys + recorded.Keys
            && (forall name | name in before :: merged[name] == before[name])
            && (forall name | name in recorded :: Hash(collate, merged[name]) == recorded[name])
  {
    hide Hash, Merged, Recorded;
    var merged := Merged(collate, container, tracked, desired);
    var recorded := Recorded(collate, container, tracked, desired);
    forall name
      ensures name in merged <==> name in before || name in recorded
      ensures name in before ==> name !in recorded && merged[name] == before[name]
      ensures name in recorded ==> Hash(collate, merged[name]) == recorded[name]
    {
      MergedAt(collate, container, tracked, desired, name);
      RecordedAt(collate, container, tracked, desired, name);
    }
  }

  lemma {:induction false} AllKeepInstalled(collate: Collation, original: File, rounds: seq<map<string, Json>>)
    requires Readable(original)
    ensures Installed(collate, original, SyncAll(collate, State(original, None), rounds))
  {
    if rounds != [] {
      AllKeepInstalled(collate, original, rounds[..|rounds| - 1]);
      SyncKeepsInstalled(collate, original, SyncAll(collate, State(original, None), rounds[..|rounds| - 1]), rounds[|rounds| - 1]);
    }
  }

  /** Uninstalling everything restores the server map and empties the ledger, whatever was synced before. */
  lemma UninstallRestores(collate: Collation, original: File, rounds: seq<map<string, Json>>)
    requires Readable(original)
    ensures var end := Synced(collate, SyncAll(collate, State(original, None), rounds), map[], None);
            Container(end.file) == Container(original) && end.record == None
  {
    hide Hash, Merged, Recorded;
    var s := SyncAll(collate, State(original, None), rounds);
    var end := Synced(collate, s, map[], None);
    AllKeepInstalled(collate, original, rounds);
    SyncKeepsInstalled(collate, original, s, map[]);
    forall name ensures name !in Recorded(collate, Container(s.file), Tracked(s.record), map[]) {
      RecordedAt(collate, Container(s.file), Tracked(s.record), map[], name);
    }
    assert Recorded(collate, Container(s.file), Tracked(s.record), map[]) == map[];
    assert Tracked(end.record) == map[];
    assert Container(end.file) == Container(original);
  }

  /** The file itself comes back unless it had no server map and one was ever written: an empty map is left behind. */
  lemma UninstallRestoresFile(collate: Collation, original: File, rounds: seq<map<string, Json>>)
    requires Readable(original)
    ensures var end := Synced(collate, SyncAll(collate, State(original, None), rounds), map[], None);
            end.file == original <==> (original.Root? && original.servers.Map?) || forall r | r in rounds :: r == map[]
  {
    UninstallRestores(collate, original, rounds);
    var end := Synced(collate, SyncAll(collate, State(original, None), rounds), map[], None);
    AllKeepInstalled(collate, original, rounds);
    SyncKeepsInstalled(collate, original, SyncAll(collate, State(original, None), rounds), map[]);
    assert end.file == original || end.file == Written(original, Container(original));
    if !(original.Root? && original.servers.Map?) {
      EmptyRounds(collate, original, rounds);
    }
  }

  lemma {:induction false} EmptyRounds(collate: Collation, original: File, rounds: seq<map<string, Json>>)
    requires original.Missing? || (original.Root? && original.servers.NoKey?)
    ensures var s := SyncAll(collate, State(original, None), rounds);
            if forall r | r in rounds :: r == map[] then s == State(original, None) else s.file.Root? && s.file.servers.Map?
  {
    hide Hash, Merged, Recorded;
    if rounds != [] {
      var n := |rounds| - 1;
      var s := SyncAll(collate, State(original, None), rounds[..n]);
      EmptyRounds(collate, original, rounds[..n]);
      AllKeepInstalled(collate, original, rounds[..n]);
      var container, tracked := Container(s.file), Tracked(s.record);
      assert rounds[n] in rounds && forall r | r in rounds[..n] :: r in rounds;
      assert forall r | r in rounds :: r in rounds[..n] || r == rounds[n];
      if rounds[n] == map[] && s == State(original, None) {
        NothingDesired(collate, map[]);
      }
      var merged := Merged(collate, Container(s.file), Tracked(s.record), rounds[n]);
      if s.file == original && rounds[n] != map[] {
        var name :| name in rounds[n];
        MergedAt(collate, container, tracked, rounds[n], name);
      }
    }
  }

  // ---------- uninstalling after edits ----------

  function At(file: File, name: string): Option<Json> {
    if Has(file, name) then Some(Container(file)[name]) else None
  }

  /** The entries a sync takes for the user's. */
  function TheirPart(collate: Collation, s: State): map<string, Json> {
    map name | name in Container(s.file) && Theirs(collate, Container(s.file), Tracked(s.record), name) :: Container(s.file)[name]
  }

  lemma SyncKeepsTheirPart(collate: Collation, s: State, desired: map<string, Json>)
    requires Readable(s.file)
    ensures var after := Synced(collate, s, desired, None);
            && Readable(after.file) && TheirPart(collate, after) == TheirPart(collate, s)
            && (desired == map[] ==> Container(after.file) == TheirPart(collate, s) && after.record == None)
  {
    hide Hash, Merged, Recorded;
    var container, tracked := Container(s.file), Tracked(s.record);
    var after := Synced(collate, s, desired, None);
    var merged, recorded := Merged(collate, container, tracked, desired), Recorded(collate, container, tracked, desired);
    assert Container(after.file) == merged && Tracked(after.record) == recorded;
    forall name
      ensures name in TheirPart(collate, after) <==> name in TheirPart(collate, s)
      ensures name in TheirPart(collate, s) ==> TheirPart(collate, after)[name] == TheirPart(collate, s)[name]
      ensures desired == map[] ==> name !in recorded
      ensures desired == map[] ==> (name in merged <==> name in TheirPart(collate, s))
      ensures name in TheirPart(collate, s) ==> name in merged && merged[name] == TheirPart(collate, s)[name]
    {
      MergedAt(collate, container, tracked, desired, name);
      RecordedAt(collate, container, tracked, desired, name);
    }
    assert TheirPart(collate, after) == TheirPart(collate, s);
    if desired == map[] {
      assert recorded == map[];
    }
  }

  lemma {:induction false} AllKeepTheirPart(collate: Collation, s: State, rounds: seq<map<string, Json>>)
    requires Readable(s.file)
    ensures var after := SyncAll(collate, s, rounds); Readable(after.file) && TheirPart(collate, after) == TheirPart(collate, s)
    decreases |rounds|
  {
    hide TheirPart, Synced;
    if rounds != [] {
      AllKeepTheirPart(collate, s, rounds[..|rounds| - 1]);
      SyncKeepsTheirPart(collate, SyncAll(collate, s, rounds[..|rounds| - 1]), rounds[|rounds| - 1]);
    }
  }

  /** Whatever state the file and the ledger are in, uninstalling leaves exactly the user's entries and no record. */
  lemma UninstallLeavesTheirs(collate: Collation, s: State, rounds: seq<map<string, Json>>)
    requires Readable(s.file)
    ensures var end := Synced(collate, SyncAll(collate, s, rounds), map[], None);
            Container(end.file) == TheirPart(collate, s) && end.record == None
  {
    hide TheirPart, Synced;
    AllKeepTheirPart(collate, s, rounds);
    SyncKeepsTheirPart(collate, SyncAll(collate, s, rounds), map[]);
  }

  predicate NeverDesired(events: seq<Event>, name: string) {
    forall e | e in events :: e.Sync? ==> name !in e.desired
  }

  /** What the others last made of the entry: its value, or nothing. */
  function LastLeft(left: Option<Json>, events: seq<Event>, name: string): Option<Json>
    decreases |events|
  {
    if events == [] then left
    else LastLeft(match events[0]
                  case Edit(file) => At(file, name)
                  case Sync(_, meanwhile, _) => if meanwhile.Some? then At(meanwhile.value, name) else left,
                  events[1..], name)
  }

  lemma {:induction false} NeverTakenOver(collate: Collation, s: State, events: seq<Event>, name: string)
    requires name !in Tracked(s.record) && NeverDesired(events, name)
    ensures var after := Run(collate, s, events);
            name !in Tracked(after.record) && At(after.file, name) == LastLeft(At(s.file, name), events, name)
    decreases |events|
  {
    hide Hash, Merged, Recorded;
    if events != [] {
      assert events[0] in events && forall e | e in events[1..] :: e in events;
      if events[0].Sync? {
        MergedAt(collate, Container(s.file), Tracked(s.record), events[0].desired, name);
        RecordedAt(collate, Container(s.file), Tracked(s.record), events[0].desired, name);
      }
      NeverTakenOver(collate, Step(collate, s, events[0]), events[1..], name);
    }
  }

  /** The entry is absent or as we wrote it. */
  predicate OursOrAbsent(collate: Collation, s: State, name: string) {
    Has(s.file, name) ==> Ours(collate, Container(s.file), Tracked(s.record), name)
  }

  /** The others leave the entry as it is or delete it, and the ledger is saved. */
  predicate Leaves(s: State, event: Event, name: string) {
    match event
    case Edit(file) => At(file, name) in {None, At(s.file, name)}
    case Sync(_, meanwhile, saved) => saved && (meanwhile.Some? ==> At(meanwhile.value, name) in {None, At(s.file, name)})
  }

  predicate AllLeave(collate: Collation, s: State, events: seq<Event>, name: string)
    decreases |events|
  {
    events == [] || (Leaves(s, events[0], name) && AllLeave(collate, Step(collate, s, events[0]), events[1..], name))
  }

  lemma StepStaysOurs(collate: Collation, s: State, event: Event, name: string)
    requires OursOrAbsent(collate, s, name) && Leaves(s, event, name)
    ensures OursOrAbsent(collate, Step(collate, s, event), name)
  {
    hide Hash, Merged, Recorded;
    if event.Sync? {
      var container, tracked := Container(s.file), Tracked(s.record);
      var merged := Merged(collate, container, tracked, event.desired);
      var recorded := Recorded(collate, container, tracked, event.desired);
      MergedAt(collate, container, tracked, event.desired, name);
      RecordedAt(collate, container, tracked, event.desired, name);
      assert Tracked(if recorded == map[] then None else Some(recorded)) == recorded;
    }
  }

  lemma {:induction false} StaysOurs(collate: Collation, s: State, events: seq<Event>, name: string)
    requires OursOrAbsent(collate, s, name) && AllLeave(collate, s, events, name)
    ensures OursOrAbsent(collate, Run(collate, s, events), name)
    decreases |events|
  {
    hide OursOrAbsent, Leaves, Step;
    if events != [] {
      StepStaysOurs(collate, s, events[0], name);
      StaysOurs(collate, Step(collate, s, events[0]), events[1..], name);
    }
  }

  /**
   * After any run of syncs and edits, uninstalling brings an entry we never desired back as the others last
   * left it, and takes away one that only we ever wrote.
   */
  lemma UninstallAfterEdits(collate: Collation, original: File, events: seq<Event>, rounds: seq<map<string, Json>>, name: string)
    requires var s := Run(collate, State(original, None), events); Readable(s.file)
    ensures var s := Run(collate, State(original, None), events);
            var end := Synced(collate, SyncAll(collate, s, rounds), map[], None);
            && end.record == None
            && (NeverDesired(events, name) ==> At(end.file, name) == LastLeft(At(original, name), events, name))
            && (!Has(original, name) && AllLeave(collate, State(original, None), events, name) ==> !Has(end.file, name))
  {
    hide Hash, Synced, AllLeave, LastLeft, NeverDesired;
    var start := State(original, None);
    var s := Run(collate, start, events);
    UninstallLeavesTheirs(collate, s, rounds);
    if NeverDesired(events, name) {
      NeverTakenOver(collate, start, events, name);
    }
    if !Has(original, name) && AllLeave(collate, start, events, name) {
      StaysOurs(collate, start, events, name);
    }
  }
}
