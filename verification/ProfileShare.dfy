/** Top-level keys copied from the default account's JSON file into a profile's, tracked by last written value. */
module ProfileShare {
  import opened Wrappers
  import opened Json

  datatype File = Missing | Unreadable | Object(members: map<string, Json>)

  datatype SurfaceOutcome = Absent | UserOwned | Unchanged | Merged

  /** The profile's file and what the ledger says was last written or adopted per key. */
  datatype State = State(file: File, written: map<string, Json>)

  /** Set in this profile to something other than what was last written. */
  predicate Theirs(target: map<string, Json>, written: map<string, Json>, key: string) {
    key in target && (key !in written || written[key] != target[key])
  }

  predicate Overwrites(target: map<string, Json>, written: map<string, Json>, desired: map<string, Json>, key: string) {
    key in desired && !Theirs(target, written, key) && (key !in target || target[key] != desired[key])
  }

  predicate Accepts(target: map<string, Json>, written: map<string, Json>, desired: map<string, Json>, key: string) {
    key in desired && (!Theirs(target, written, key) || target[key] == desired[key])
  }

  function Shared(target: map<string, Json>, written: map<string, Json>, desired: map<string, Json>): map<string, Json> {
    target + map key | key in desired && Overwrites(target, written, desired, key) :: desired[key]
  }

  function Remembered(target: map<string, Json>, written: map<string, Json>, desired: map<string, Json>): map<string, Json> {
    written + map key | key in desired && Accepts(target, written, desired, key) :: desired[key]
  }

  function Members(file: File): map<string, Json> {
    if file.Object? then file.members else map[]
  }

  /** `picked` is the shared subset of the default account's file, if that file is readable. */
  function Synced(s: State, picked: Option<map<string, Json>>, force: Option<map<string, Json>>, requireExisting: bool)
    : (State, SurfaceOutcome)
  {
    if requireExisting && !s.file.Object? then (s, Absent)
    else if s.file.Unreadable? then (s, UserOwned)
    else if picked.None? && force.None? then (s, Absent)
    else
      var desired := picked.GetOr(map[]);
      var shared := Shared(Members(s.file), s.written, desired);
      var enforced := shared + force.GetOr(map[]);
      var written := Remembered(Members(s.file), s.written, desired);
      if Members(s.file) == shared == enforced then (State(s.file, written), Unchanged) else (State(Object(enforced), written), Merged)
  }

  lemma NothingLost(target: map<string, Json>, written: map<string, Json>, desired: map<string, Json>)
    ensures target.Keys <= Shared(target, written, desired).Keys
  {
  }

  class Profile {
    var file: File
    var written: map<string, Json>

    constructor (file: File, written: map<string, Json>)
      ensures this.file == file && this.written == written
    {
      this.file, this.written := file, written;
    }

    method MergeSharedJsonKeys(picked: Option<map<string, Json>>, force: Option<map<string, Json>>, requireExisting: bool)
      returns (outcome: SurfaceOutcome)
      modifies this
      ensures (State(file, written), outcome) == Synced(State(old(file), old(written)), picked, force, requireExisting)
      ensures (requireExisting && !old(file).Object?) || old(file).Unreadable? || (picked.None? && force.None?) ==>
                && file == old(file) && written == old(written)
                && outcome == if old(file).Unreadable? && !requireExisting then UserOwned else Absent
      ensures outcome == Unchanged ==> file == old(file)
      ensures outcome in {Unchanged, Merged} ==>
                && (forall key | key in force.GetOr(map[]) :: key in Members(file) && Members(file)[key] == force.value[key])
                && (forall key | key in Members(old(file)) :: key in Members(file))
    {
      hide Shared, Remembered;
      NothingLost(Members(file), written, picked.GetOr(map[]));
      if requireExisting && !file.Object? {
        return Absent;
      }
      if file.Unreadable? {
        return UserOwned;
      }
      if picked.None? && force.None? {
        return Absent;
      }
      var target, remembered, shared := Share(Members(file), written, picked.GetOr(map[]));
      var enforced, drifted := Enforce(target, force.GetOr(map[]));
      written := remembered;
      if !shared && !drifted {
        return Unchanged;
      }
      file := Object(enforced);
      return Merged;
    }
  }

  lemma Cases(target: map<string, Json>, written: map<string, Json>, desired: map<string, Json>, key: string)
    requires key in desired
    ensures var same := key in target && target[key] == desired[key];
            var theirs := key in target && (key !in written || written[key] != target[key]);
            && (Overwrites(target, written, desired, key) <==> !same && !theirs)
            && (Accepts(target, written, desired, key) <==> same || !theirs)
  {
  }

  function SharedSoFar(target: map<string, Json>, written: map<string, Json>, desired: map<string, Json>, done: set<string>): map<string, Json>
    requires done <= desired.Keys
  {
    target + map key | key in done && Overwrites(target, written, desired, key) :: desired[key]
  }

  function RememberedSoFar(target: map<string, Json>, written: map<string, Json>, desired: map<string, Json>, done: set<string>): map<string, Json>
    requires done <= desired.Keys
  {
    written + map key | key in done && Accepts(target, written, desired, key) :: desired[key]
  }

  lemma ShareOne(target: map<string, Json>, written: map<string, Json>, desired: map<string, Json>, done: set<string>, key: string)
    requires done <= desired.Keys && key in desired && key !in done
    ensures var was := SharedSoFar(target, written, desired, done);
            && (key in was <==> key in target) && (key in was ==> was[key] == target[key])
            && SharedSoFar(target, written, desired, done + {key})
               == if Overwrites(target, written, desired, key) then was[key := desired[key]] else was
  {
    hide Overwrites;
  }

  lemma RememberOne(target: map<string, Json>, written: map<string, Json>, desired: map<string, Json>, done: set<string>, key: string)
    requires done <= desired.Keys && key in desired && key !in done
    ensures var was := RememberedSoFar(target, written, desired, done);
            && (key in was <==> key in written) && (key in was ==> was[key] == written[key])
            && RememberedSoFar(target, written, desired, done + {key})
               == if Accepts(target, written, desired, key) then was[key := desired[key]] else was
  {
    hide Accepts;
  }

  lemma SharedChanges(target: map<string, Json>, written: map<string, Json>, desired: map<string, Json>)
    ensures Shared(target, written, desired) != target <==> exists key | key in desired :: Overwrites(target, written, desired, key)
  {
    if key :| key in desired && Overwrites(target, written, desired, key) {
      assert key in target ==> Shared(target, written, desired)[key] != target[key];
      assert key in Shared(target, written, desired);
    }
  }

  method Share(target: map<string, Json>, written: map<string, Json>, desired: map<string, Json>)
    returns (merged: map<string, Json>, remembered: map<string, Json>, changed: bool)
    ensures merged == Shared(target, written, desired) && remembered == Remembered(target, written, desired)
    ensures changed <==> merged != target
  {
    hide Overwrites, Accepts, SharedSoFar, RememberedSoFar;
    merged, remembered, changed := target, written, false;
    var left := desired.Keys;
    ghost var done: set<string> := {};
    NoneShared(target, written, desired);
    while left != {}
      invariant left !! done && left + done == desired.Keys
      invariant merged == SharedSoFar(target, written, desired, done)
      invariant remembered == RememberedSoFar(target, written, desired, done)
      invariant changed <==> exists key | key in done :: Overwrites(target, written, desired, key)
      decreases left
    {
      var key :| key in left;
      ShareOne(target, written, desired, done, key);
      RememberOne(target, written, desired, done, key);
      Cases(target, written, desired, key);
      left := left - {key};
      done := done + {key};
      if key in merged && merged[key] == desired[key] {
        remembered := remembered[key := desired[key]];
        continue;
      }
      if key in merged && (key !in remembered || remembered[key] != merged[key]) {
        continue;
      }
      merged := merged[key := desired[key]];
      remembered := remembered[key := desired[key]];
      changed := true;
    }
    assert done == desired.Keys;
    AllShared(target, written, desired);
    SharedChanges(target, written, desired);
  }

  lemma NoneShared(target: map<string, Json>, written: map<string, Json>, desired: map<string, Json>)
    ensures SharedSoFar(target, written, desired, {}) == target && RememberedSoFar(target, written, desired, {}) == written
  {
  }

  lemma AllShared(target: map<string, Json>, written: map<string, Json>, desired: map<string, Json>)
    ensures SharedSoFar(target, written, desired, desired.Keys) == Shared(target, written, desired)
    ensures RememberedSoFar(target, written, desired, desired.Keys) == Remembered(target, written, desired)
  {
  }

  method Enforce(target: map<string, Json>, force: map<string, Json>) returns (enforced: map<string, Json>, changed: bool)
    ensures enforced == target + force
    ensures changed <==> enforced != target
  {
    enforced, changed := target, false;
    var left := force.Keys;
    while left != {}
      invariant left <= force.Keys
      invariant enforced == target + map key | key in force && key !in left :: force[key]
      invariant changed <==> enforced != target
      decreases left
    {
      var key :| key in left;
      left := left - {key};
      if key in enforced && enforced[key] == force[key] {
        continue;
      }
      enforced := enforced[key := force[key]];
      changed := true;
      assert enforced[key] == force[key] && (key in target ==> target[key] != force[key]);
    }
  }

  // ---------- ownership ----------

  /** Outside the enforced keys, a value changes exactly when the source offers another and the user has not set it. */
  lemma AlteredExactly(s: State, picked: map<string, Json>, force: Option<map<string, Json>>, key: string)
    requires !s.file.Unreadable? && key !in force.GetOr(map[])
    ensures var before, after := Members(s.file), Members(Synced(s, Some(picked), force, false).0.file);
            && (key in before ==> key in after)
            && (key in before ==> (after[key] != before[key] <==>
                  key in picked && picked[key] != before[key] && key in s.written && s.written[key] == before[key]))
            && (key !in before ==> (key in after <==> key in picked) && (key in after ==> after[key] == picked[key]))
  {
  }

  /** A key the profile set itself becomes shared exactly when its value coincides with the source's. */
  lemma AdoptedExactly(s: State, picked: map<string, Json>, force: Option<map<string, Json>>, key: string)
    requires Theirs(Members(s.file), s.written, key) && !s.file.Unreadable? && key !in force.GetOr(map[])
    ensures var after := Synced(s, Some(picked), force, false).0;
            && Members(after.file)[key] == Members(s.file)[key]
            && (Theirs(Members(after.file), after.written, key) <==> !(key in picked && picked[key] == Members(s.file)[key]))
  {
  }

  datatype Event =
    | Merge(picked: Option<map<string, Json>>, force: Option<map<string, Json>>, requireExisting: bool)
    | Edit(file: File)

  function Run(s: State, events: seq<Event>): State
    decreases |events|
  {
    if events == [] then s
    else if events[0].Edit? then Run(s.(file := events[0].file), events[1..])
    else Run(Synced(s, events[0].picked, events[0].force, events[0].requireExisting).0, events[1..])
  }

  /** Edits leave the key's value alone, and no merge enforces it or offers the very same value. */
  predicate LeavesAlone(events: seq<Event>, key: string, value: Json) {
    forall e | e in events ::
      if e.Edit? then key in Members(e.file) && Members(e.file)[key] == value
      else key !in e.force.GetOr(map[]) && (key in e.picked.GetOr(map[]) ==> e.picked.value[key] != value)
  }

  /** A value the user set in the profile survives every run until the source coincides with it. */
  lemma {:induction false} TheirsForever(s: State, events: seq<Event>, key: string)
    requires Theirs(Members(s.file), s.written, key) && LeavesAlone(events, key, Members(s.file)[key])
    ensures var end := Run(s, events);
            && Theirs(Members(end.file), end.written, key)
            && Members(end.file)[key] == Members(s.file)[key]
    decreases |events|
  {
    if events != [] {
      var e := events[0];
      assert e in events && forall x | x in events[1..] :: x in events;
      var next := if e.Edit? then s.(file := e.file) else Synced(s, e.picked, e.force, e.requireExisting).0;
      assert Theirs(Members(next.file), next.written, key) && Members(next.file)[key] == Members(s.file)[key];
      TheirsForever(next, events[1..], key);
    }
  }

  /** A key the profile set otherwise, and which being enforced turns into one the next merge takes for shared. */
  predicate TurnsShared(target: map<string, Json>, written: map<string, Json>, desired: map<string, Json>, force: map<string, Json>, key: string) {
    && key in desired && key in force && Theirs(target, written, key) && target[key] != desired[key]
    && (key in written ==> written[key] != desired[key])
    && (force[key] == desired[key] || (key in written && force[key] == written[key]))
  }

  /** A second merge finds nothing to do, exactly unless enforcing a key turns it into a shared one. */
  lemma MergeTwiceIff(s: State, picked: Option<map<string, Json>>, force: Option<map<string, Json>>)
    requires !s.file.Unreadable? && !(picked.None? && force.None?)
    ensures var once := Synced(s, picked, force, false).0;
            var (twice, outcome) := Synced(once, picked, force, false);
            && (twice == once <==>
                  forall key | key in force.GetOr(map[]) ::
                    !TurnsShared(Members(s.file), s.written, picked.GetOr(map[]), force.GetOr(map[]), key))
            && (twice == once ==> outcome == Unchanged)
  {
    hide Shared, Remembered, TurnsShared;
    var target, desired, enforced := Members(s.file), picked.GetOr(map[]), force.GetOr(map[]);
    var once := Synced(s, picked, force, false).0;
    assert Members(once.file) == Shared(target, s.written, desired) + enforced;
    if forall key | key in enforced :: !TurnsShared(target, s.written, desired, enforced, key) {
      TwiceSettled(target, s.written, desired, enforced);
    } else {
      var key :| key in enforced && TurnsShared(target, s.written, desired, enforced, key);
      TwiceTurns(target, s.written, desired, enforced, key);
    }
  }

  lemma TwiceTurns(target: map<string, Json>, written: map<string, Json>, desired: map<string, Json>, force: map<string, Json>, key: string)
    requires TurnsShared(target, written, desired, force, key)
    ensures var enforced := Shared(target, written, desired) + force;
            var remembered := Remembered(target, written, desired);
            Remembered(enforced, remembered, desired) != remembered
  {
    hide Overwrites, Accepts;
    var enforced := Shared(target, written, desired) + force;
    var remembered := Remembered(target, written, desired);
    Cases(target, written, desired, key);
    Cases(enforced, remembered, desired, key);
    assert key in remembered <==> key in written;
    assert Remembered(enforced, remembered, desired)[key] == desired[key];
  }

  lemma SettledAt(target: map<string, Json>, written: map<string, Json>, desired: map<string, Json>, force: map<string, Json>, key: string)
    requires key in desired && !TurnsShared(target, written, desired, force, key)
    ensures var enforced := Shared(target, written, desired) + force;
            var remembered := Remembered(target, written, desired);
            && !Overwrites(enforced, remembered, desired, key)
            && (Accepts(enforced, remembered, desired, key) ==> key in remembered && remembered[key] == desired[key])
  {
    hide Overwrites, Accepts;
    var enforced := Shared(target, written, desired) + force;
    var remembered := Remembered(target, written, desired);
    Cases(target, written, desired, key);
    Cases(enforced, remembered, desired, key);
  }

  lemma TwiceSettled(target: map<string, Json>, written: map<string, Json>, desired: map<string, Json>, force: map<string, Json>)
    requires forall key | key in force :: !TurnsShared(target, written, desired, force, key)
    ensures var enforced := Shared(target, written, desired) + force;
            var remembered := Remembered(target, written, desired);
            && Shared(enforced, remembered, desired) == enforced == enforced + force
            && Remembered(enforced, remembered, desired) == remembered
  {
    hide Shared, Remembered, Overwrites, Accepts, TurnsShared;
    var enforced := Shared(target, written, desired) + force;
    var remembered := Remembered(target, written, desired);
    forall key | key in desired
      ensures !Overwrites(enforced, remembered, desired, key)
      ensures Accepts(enforced, remembered, desired, key) ==> key in remembered && remembered[key] == desired[key]
    {
      OnlyEnforcedTurns(target, written, desired, force, key);
      SettledAt(target, written, desired, force, key);
    }
    NoOverwrite(enforced, remembered, desired);
    NoNews(enforced, remembered, desired);
    assert enforced + force == enforced;
  }

  lemma OnlyEnforcedTurns(target: map<string, Json>, written: map<string, Json>, desired: map<string, Json>, force: map<string, Json>, key: string)
    ensures TurnsShared(target, written, desired, force, key) ==> key in force
  {
  }

  lemma NoOverwrite(target: map<string, Json>, written: map<string, Json>, desired: map<string, Json>)
    requires forall key | key in desired :: !Overwrites(target, written, desired, key)
    ensures Shared(target, written, desired) == target
  {
    hide Overwrites;
  }

  lemma NoNews(target: map<string, Json>, written: map<string, Json>, desired: map<string, Json>)
    requires forall key | key in desired && Accepts(target, written, desired, key) :: key in written && written[key] == desired[key]
    ensures Remembered(target, written, desired) == written
  {
    hide Accepts;
  }
}
