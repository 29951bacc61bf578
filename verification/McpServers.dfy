/** Managed entries in Claude's `mcpServers` map, owned through a ledger of what was written. */
module McpServers {
  import opened Wrappers
  import opened Text
  import opened Json

  /** The `mcpServers` key of the state file. */
  datatype Servers = NoKey | NotAMap | Map(entries: map<string, Json>)

  datatype File = Missing | Unparseable | NotObject | Root(servers: Servers, others: map<string, Json>)

  /** What the ledger records of the file: each written name with the hash of what was written. */
  type Record = Option<map<string, Json>>

  /** Stable across key order; the canonical form stands for its digest. */
  function Hash(collate: Collation, v: Json): Json {
    SortKeysDeep(collate, v)
  }

  /** A recorded hash is matched by the values that differ from the written one in key order at most. */
  lemma HashMatches(collate: Collation, written: Json, current: Json)
    requires Total(collate) && Proper(written) && Proper(current)
    ensures Hash(collate, current) == Hash(collate, written) <==> Meaning(current) == Meaning(written)
  {
    CanonicalMeansEqual(collate, written, current);
  }

  function Container(file: File): map<string, Json> {
    if file.Root? && file.servers.Map? then file.servers.entries else map[]
  }

  function Tracked(record: Record): map<string, Json> {
    record.GetOr(map[])
  }

  /** Present and still what the ledger says was written. */
  predicate Ours(collate: Collation, container: map<string, Json>, tracked: map<string, Json>, name: string) {
    name in container && name in tracked && Hash(collate, container[name]) == tracked[name]
  }

  /** Present, and either never written by us or changed since. */
  predicate Theirs(collate: Collation, container: map<string, Json>, tracked: map<string, Json>, name: string) {
    name in container && !Ours(collate, container, tracked, name)
  }

  /** The container after a sync, name by name. */
  function Merged(collate: Collation, container: map<string, Json>, tracked: map<string, Json>, desired: map<string, Json>)
    : map<string, Json>
  {
    map name | name in container.Keys + desired.Keys && (Theirs(collate, container, tracked, name) || name in desired) ::
      if name in desired then Settled(collate, container, tracked, desired, name) else container[name]
  }

  /** The value of a desired name: the user's stays, and so does an equal one of ours. */
  function Settled(collate: Collation, container: map<string, Json>, tracked: map<string, Json>, desired: map<string, Json>, name: string): Json
    requires name in desired
  {
    if Theirs(collate, container, tracked, name) then container[name]
    else if name in container && Hash(collate, container[name]) == Hash(collate, desired[name]) then container[name]
    else desired[name]
  }

  /** The names a sync leaves recorded: desired and not the user's. */
  function Recorded(collate: Collation, container: map<string, Json>, tracked: map<string, Json>, desired: map<string, Json>)
    : map<string, Json>
  {
    map name | name in desired && !Theirs(collate, container, tracked, name) :: Hash(collate, desired[name])
  }

  lemma MergedAt(collate: Collation, container: map<string, Json>, tracked: map<string, Json>, desired: map<string, Json>, name: string)
    ensures var merged := Merged(collate, container, tracked, desired);
            var theirs := name in container && (name !in tracked || Hash(collate, container[name]) != tracked[name]);
            && (name in merged <==> theirs || name in desired)
            && (theirs ==> merged[name] == container[name])
            && (!theirs && name in desired ==>
                  merged[name] == if name in container && Hash(collate, container[name]) == Hash(collate, desired[name])
                                  then container[name] else desired[name])
  {
  }

  lemma RecordedAt(collate: Collation, container: map<string, Json>, tracked: map<string, Json>, desired: map<string, Json>, name: string)
    ensures var recorded := Recorded(collate, container, tracked, desired);
            var theirs := name in container && (name !in tracked || Hash(collate, container[name]) != tracked[name]);
            && (name in recorded <==> name in desired && !theirs)
            && (name in recorded ==> recorded[name] == Hash(collate, desired[name]))
  {
  }

  // ---------- one sync ----------

  datatype State = State(file: File, record: Record)

  predicate Readable(file: File) {
    file.Missing? || (file.Root? && !file.servers.NotAMap?)
  }

  function Written(file: File, container: map<string, Json>): File {
    Root(Map(container), if file.Root? then file.others else map[])
  }

  /** `meanwhile` is what another program made of the file between our read and our write. */
  function Synced(collate: Collation, s: State, desired: map<string, Json>, meanwhile: Option<File>): State {
    var merged := Merged(collate, Container(s.file), Tracked(s.record), desired);
    var recorded := Recorded(collate, Container(s.file), Tracked(s.record), desired);
    var unwritten := meanwhile.GetOr(s.file);
    if !Readable(s.file) then State(unwritten, s.record)
    else if merged == Container(s.file) then State(unwritten, if recorded == map[] then None else Some(recorded))
    else if meanwhile.Some? then State(unwritten, s.record)
    else State(Written(s.file, merged), if recorded == map[] then None else Some(recorded))
  }

  /**
   * What a sync makes of one name: the user's value stays and is forgotten; a desired one is there as desired and
   * recorded; any other is gone.
   */
  predicate Entered(collate: Collation, container: map<string, Json>, tracked: map<string, Json>, desired: map<string, Json>, name: string,
                    after: map<string, Json>, recorded: map<string, Json>)
  {
    if name in container && (name !in tracked || Hash(collate, container[name]) != tracked[name]) then
      name in after && after[name] == container[name] && name !in recorded
    else if name in desired then
      && name in after && Hash(collate, after[name]) == Hash(collate, desired[name])
      && (after[name] == desired[name] || (name in container && after[name] == container[name]))
      && name in recorded && recorded[name] == Hash(collate, desired[name])
    else name !in after && name !in recorded
  }

  lemma EnteredAt(collate: Collation, container: map<string, Json>, tracked: map<string, Json>, desired: map<string, Json>, name: string)
    ensures Entered(collate, container, tracked, desired, name, Merged(collate, container, tracked, desired), Recorded(collate, container, tracked, desired))
  {
    hide Hash;
    MergedAt(collate, container, tracked, desired, name);
    RecordedAt(collate, container, tracked, desired, name);
  }

  class ClaudeConfig {
    const collate: Collation
    var file: File
    var record: Record

    constructor (collate: Collation, file: File, record: Record)
      ensures this.collate == collate && this.file == file && this.record == record
    {
      this.collate, this.file, this.record := collate, file, record;
    }

    method Sync(desired: map<string, Json>, meanwhile: Option<File>)
      modifies this
      ensures State(file, record) == Synced(collate, State(old(file), old(record)), desired, meanwhile)
      ensures meanwhile.Some? ==> file == meanwhile.value
      ensures meanwhile.None? && old(file).Root? ==> file.Root? && file.others == old(file).others
      ensures !Readable(old(file)) ==> record == old(record) && (meanwhile.None? ==> file == old(file))
      ensures meanwhile.None? && Readable(old(file)) ==>
                forall name :: Entered(collate, Container(old(file)), Tracked(old(record)), desired, name, Container(file), Tracked(record))
    {
      hide Hash, Merged, Recorded, Entered;
      forall name
        ensures Entered(collate, Container(file), Tracked(record), desired, name,
                        Merged(collate, Container(file), Tracked(record), desired), Recorded(collate, Container(file), Tracked(record), desired))
      {
        EnteredAt(collate, Container(file), Tracked(record), desired, name);
      }
      var tracked := Tracked(record);
      var read := file;
      file := meanwhile.GetOr(file);
      if read.Unparseable? || read.NotObject? {
        return;
      }
      if read.Missing? && desired == map[] {
        record := None;
        NothingDesired(collate, tracked);
        return;
      }
      if read.Root? && read.servers.NotAMap? {
        return;
      }
      var hadContainer := read.Root? && read.servers.Map?;
      var container := Container(read);
      var reaped, dropped := Reap(collate, container, tracked, desired);
      var merged, nextTracked, wrote := Apply(collate, container, reaped, tracked, desired);
      MutatedMeans(collate, container, tracked, desired, dropped, wrote);
      var mutated := dropped || wrote;
      if mutated && meanwhile.Some? {
        return;
      }
      record := if nextTracked == map[] then None else Some(nextTracked);
      if !mutated {
        return;
      }
      var servers := if merged != map[] || hadContainer then Map(merged) else NoKey;
      file := Root(servers, if read.Root? then read.others else map[]);
    }
  }

  predicate Dropped(collate: Collation, container: map<string, Json>, tracked: map<string, Json>, desired: map<string, Json>, name: string) {
    Ours(collate, container, tracked, name) && name !in desired
  }

  predicate Wrote(collate: Collation, container: map<string, Json>, tracked: map<string, Json>, desired: map<string, Json>, name: string) {
    && name in desired && !Theirs(collate, container, tracked, name)
    && (name in container ==> Hash(collate, container[name]) != Hash(collate, desired[name]))
  }

  lemma NothingDesired(collate: Collation, tracked: map<string, Json>)
    ensures Merged(collate, map[], tracked, map[]) == map[] && Recorded(collate, map[], tracked, map[]) == map[]
  {
  }

  lemma MutatedMeans(collate: Collation, container: map<string, Json>, tracked: map<string, Json>, desired: map<string, Json>, dropped: bool, wrote: bool)
    requires dropped <==> exists name | name in tracked :: Dropped(collate, container, tracked, desired, name)
    requires wrote <==> exists name | name in desired :: Wrote(collate, container, tracked, desired, name)
    ensures dropped || wrote <==> Merged(collate, container, tracked, desired) != container
  {
    hide Hash;
    var merged := Merged(collate, container, tracked, desired);
    if dropped {
      var name :| name in tracked && Dropped(collate, container, tracked, desired, name);
      assert name !in merged;
    } else if wrote {
      var name :| name in desired && Wrote(collate, container, tracked, desired, name);
      assert merged[name] == desired[name];
    } else {
      forall name | name in container.Keys + desired.Keys ensures name in merged && name in container && merged[name] == container[name] {
        assert !Dropped(collate, container, tracked, desired, name) && !Wrote(collate, container, tracked, desired, name);
      }
      assert merged == container;
    }
  }

  method Reap(collate: Collation, container: map<string, Json>, tracked: map<string, Json>, desired: map<string, Json>)
    returns (reaped: map<string, Json>, mutated: bool)
    ensures reaped == map name | name in container && !Dropped(collate, container, tracked, desired, name) :: container[name]
    ensures mutated <==> exists name | name in tracked :: Dropped(collate, container, tracked, desired, name)
  {
    hide Hash;
    reaped, mutated := container, false;
    var left := tracked.Keys;
    while left != {}
      invariant left <= tracked.Keys
      invariant reaped == map name | name in container && (name in left || !Dropped(collate, container, tracked, desired, name)) :: container[name]
      invariant mutated <==> exists name | name in tracked && name !in left :: Dropped(collate, container, tracked, desired, name)
      decreases left
    {
      var name :| name in left;
      if name !in desired && name in reaped && Hash(collate, reaped[name]) == tracked[name] {
        reaped := reaped - {name};
        mutated := true;
      }
      left := left - {name};
    }
  }

  lemma ReapedHas(collate: Collation, container: map<string, Json>, tracked: map<string, Json>, desired: map<string, Json>, name: string)
    ensures name in desired ==> !Dropped(collate, container, tracked, desired, name)
    ensures name in container && name !in desired ==>
              (Theirs(collate, container, tracked, name) <==> !Dropped(collate, container, tracked, desired, name))
    ensures Theirs(collate, container, tracked, name) ==> name in container
  {
  }

  /** The container once the names in `done` are settled. */
  function SettledSoFar(collate: Collation, container: map<string, Json>, reaped: map<string, Json>, tracked: map<string, Json>,
                        desired: map<string, Json>, done: set<string>): map<string, Json>
    requires done <= desired.Keys
  {
    map name | name in reaped.Keys + done ::
      if name in done then Settled(collate, container, tracked, desired, name) else reaped[name]
  }

  lemma SettleOne(collate: Collation, container: map<string, Json>, reaped: map<string, Json>, tracked: map<string, Json>,
                  desired: map<string, Json>, done: set<string>, name: string)
    requires done <= desired.Keys && name in desired && name !in done
    requires reaped == map n | n in container && !Dropped(collate, container, tracked, desired, n) :: container[n]
    ensures var was := SettledSoFar(collate, container, reaped, tracked, desired, done);
            && (name in was <==> name in container) && (name in was ==> was[name] == container[name])
            && SettledSoFar(collate, container, reaped, tracked, desired, done + {name})
               == was[name := Settled(collate, container, tracked, desired, name)]
  {
    hide Settled;
    ReapedHas(collate, container, tracked, desired, name);
  }

  lemma AllSettled(collate: Collation, container: map<string, Json>, reaped: map<string, Json>, tracked: map<string, Json>,
                   desired: map<string, Json>)
    requires reaped == map n | n in container && !Dropped(collate, container, tracked, desired, n) :: container[n]
    ensures SettledSoFar(collate, container, reaped, tracked, desired, desired.Keys) == Merged(collate, container, tracked, desired)
  {
    hide Settled, Theirs, Dropped;
    forall name ensures name in container && name !in desired ==>
                          (Theirs(collate, container, tracked, name) <==> !Dropped(collate, container, tracked, desired, name)) {
      ReapedHas(collate, container, tracked, desired, name);
    }
    forall name ensures Theirs(collate, container, tracked, name) ==> name in container {
      ReapedHas(collate, container, tracked, desired, name);
    }
  }

  method Apply(collate: Collation, container: map<string, Json>, reaped: map<string, Json>, tracked: map<string, Json>, desired: map<string, Json>)
    returns (merged: map<string, Json>, nextTracked: map<string, Json>, mutated: bool)
    requires reaped == map name | name in container && !Dropped(collate, container, tracked, desired, name) :: container[name]
    ensures merged == Merged(collate, container, tracked, desired)
    ensures nextTracked == Recorded(collate, container, tracked, desired)
    ensures mutated <==> exists name | name in desired :: Wrote(collate, container, tracked, desired, name)
  {
    hide Hash, Dropped, Theirs, Settled, Wrote, SettledSoFar;
    merged, nextTracked, mutated := reaped, map[], false;
    var left := desired.Keys;
    ghost var done: set<string> := {};
    NoneSettled(collate, container, reaped, tracked, desired);
    while left != {}
      invariant left !! done && left + done == desired.Keys
      invariant merged == SettledSoFar(collate, container, reaped, tracked, desired, done)
      invariant nextTracked == map name | name in done && !Theirs(collate, container, tracked, name) :: Hash(collate, desired[name])
      invariant mutated <==> exists name | name in done :: Wrote(collate, container, tracked, desired, name)
      decreases left
    {
      var name :| name in left;
      SettleOne(collate, container, reaped, tracked, desired, done, name);
      Cases(collate, container, tracked, desired, name);
      ghost var was := merged;
      left := left - {name};
      done := done + {name};
      var value := desired[name];
      if name in merged && name !in tracked {
        assert was[name := merged[name]] == was;
        continue;
      }
      if name in merged && name in tracked && Hash(collate, merged[name]) != tracked[name] {
        assert was[name := merged[name]] == was;
        continue;
      }
      if name !in merged || Hash(collate, merged[name]) != Hash(collate, value) {
        merged := merged[name := value];
        mutated := true;
      } else {
        assert was[name := merged[name]] == was;
      }
      nextTracked := nextTracked[name := Hash(collate, value)];
    }
    assert done == desired.Keys;
    AllSettled(collate, container, reaped, tracked, desired);
  }

  lemma NoneSettled(collate: Collation, container: map<string, Json>, reaped: map<string, Json>, tracked: map<string, Json>,
                    desired: map<string, Json>)
    ensures SettledSoFar(collate, container, reaped, tracked, desired, {}) == reaped
  {
  }

  lemma Cases(collate: Collation, container: map<string, Json>, tracked: map<string, Json>, desired: map<string, Json>, name: string)
    requires name in desired
    ensures Theirs(collate, container, tracked, name) <==>
              name in container && (name !in tracked || Hash(collate, container[name]) != tracked[name])
    ensures var keep := name in container && (Theirs(collate, container, tracked, name) || Hash(collate, container[name]) == Hash(collate, desired[name]));
            && Settled(collate, container, tracked, desired, name) == (if keep then container[name] else desired[name])
            && (Wrote(collate, container, tracked, desired, name) <==> !keep)
  {
  }
}
