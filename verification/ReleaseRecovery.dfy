/** What stays possible for the rolling pointer over whole runs of both CLI operations, cut anywhere. */
module ReleaseRecovery {
  import opened Wrappers
  import opened ReleaseStore
  import opened ReleaseSteps
  import opened ReleaseClient
  import opened ReleaseRuns
  import opened ReleasePointer
  import ReleasePublish

  type PublishOptions = ReleasePublish.PublishOptions

  // ---------- servable versions ----------

  /** Nothing of pointer `p` stands in the way of version `v` or a later one. */
  predicate OpenAt(s: Store, p: nat, v: Version)
    requires p < |s.releases|
  {
    var r := s.releases[p];
    && r.prerelease && Resolve(s, CliLatest) != Broken
    && if MentionsMarker(r.body) then
         && ReadState(r.body).Some?
         && var tag := ReadState(r.body).value.tag;
         tag.Versioned? && tag.stream == Cli && AtMost(tag.version, v)
       else
         && LegacyVersion(r).Some?
         && var tag := Versioned(Cli, LegacyVersion(r).value);
         AtMost(tag.version, v) && Resolve(s, tag).Resolved? && Resolve(s, CliLatest) == Resolve(s, tag)
  }

  ghost predicate Open(s: Store, v: Version) {
    || (IsAbsent(s.releases, CliLatest) && Resolve(s, CliLatest) == Missing)
    || exists p: nat :: IsFound(s.releases, CliLatest, p) && OpenAt(s, p, v)
  }

  lemma OpenFound(s: Store, p: nat, v: Version)
    requires IsFound(s.releases, CliLatest, p)
    ensures Open(s, v) <==> OpenAt(s, p, v)
  {
    hide OpenAt;
    forall q: nat | IsFound(s.releases, CliLatest, q) ensures q == p {
      FoundUnique(s.releases, CliLatest, p, q);
    }
  }

  /** In a consistent store only the version decides which published releases can be served. */
  lemma ReadyIffOpen(s: Store, k: nat, st: Provenance)
    requires Consistent(s) && SourceAt(s, k, st)
    ensures TakeReady(s, st) <==> Open(s, st.tag.version)
  {
    hide Takeable; hide OpenAt; hide IsAbsent; hide Sole; hide PublishedAs; hide Consistent; hide Resolve; hide IsFound;
    SourceValid(s, k, st);
    SomePointer(s, st);
    if exists p: nat :: IsFound(s.releases, CliLatest, p) {
      var p: nat :| IsFound(s.releases, CliLatest, p);
      FoundPointer(s, p, st);
      OpenFound(s, p, st.tag.version);
      TakeableIffOpen(s, p, k, st);
    } else if IsAbsent(s.releases, CliLatest) {
      NoPointer(s, st);
    }
  }

  lemma TakeableIffOpen(s: Store, p: nat, k: nat, st: Provenance)
    requires Consistent(s) && SourceAt(s, k, st) && IsFound(s.releases, CliLatest, p)
    ensures Takeable(s, p, st) <==> OpenAt(s, p, st.tag.version)
  {
    assert PointerSound(s, p);
    if OpenAt(s, p, st.tag.version) && MentionsMarker(s.releases[p].body) {
      var m := ReadState(s.releases[p].body).value;
      if m.tag == st.tag {
        SoundInventory(s, p, k, st);
      }
    }
  }

  lemma OpenQuiet(s: Store, s': Store, v: Version)
    requires Advance(s, s') && PointerView(s') == PointerView(s) && Open(s, v)
    ensures Open(s', v)
  {
    hide Sole; hide PublishedAs; hide IsAbsent; hide PointerView; hide MentionsMarker; hide LegacyVersion; hide Resolve; hide ValidProvenance;
    SameView(s, s');
    if exists p: nat :: IsFound(s.releases, CliLatest, p) && OpenAt(s, p, v) {
      var p: nat :| IsFound(s.releases, CliLatest, p) && OpenAt(s, p, v);
      assert IsFound(s'.releases, CliLatest, p) && s'.releases[p] == s.releases[p];
      if LegacyVersion(s.releases[p]).Some? {
        TagKept(s, s', Versioned(Cli, LegacyVersion(s.releases[p]).value));
      }
      assert OpenAt(s', p, v);
    }
  }

  /** A record of a release without a `version.txt` of its own can be read back. */
  lemma RecordOpen(s: Store, p: nat, st: Provenance, phase: Phase, v: Version)
    requires st.tag.Versioned? && st.tag.stream == Cli && ValidProvenance(st) && VERSION_FILE !in Names(st.assets)
    requires p < |s.releases| && s.releases[p].body.markers == [PointerState(st, phase)]
    requires s.releases[p].prerelease && Resolve(s, CliLatest) != Broken && AtMost(st.tag.version, v)
    ensures OpenAt(s, p, v)
  {
    PointerNames(st);
  }

  /** A release no newer than `v`, without a `version.txt` of its own. */
  predicate Clean(st: Provenance, v: Version) {
    st.tag.Versioned? && AtMost(st.tag.version, v) && VERSION_FILE !in Names(st.assets)
  }

  /** However an update to a clean release of version at most `v` was cut, `v` stays servable. */
  lemma MovedStaysOpen(s: Store, s': Store, k: nat, st: Provenance, v: Version)
    requires st.tag.Versioned? && SourceAt(s', k, st) && Moved(s, s', st) && Advance(s, s') && Open(s, v)
    requires Clean(st, v)
    ensures Open(s', v)
  {
    hide OpenAt; hide IsAbsent; hide Sole; hide PublishedAs; hide Advance; hide Consistent; hide Brought; hide SourceAt; hide Rely; hide PointerView;
    hide Names; hide ValidProvenance; hide Created; hide Resolve;
    SourceValid(s', k, st);
    if Rely(CliPublisher, s, s') {
      RelyKeepsPointer(CliPublisher, s, s');
      OpenQuiet(s, s', v);
    } else if IsAbsent(s.releases, CliLatest) && HasCreated(s', st) {
      var p: nat :| IsFound(s'.releases, CliLatest, p) && Created(s', p, st);
      CreatedOpen(s', p, st, v);
    } else {
      var p: nat :| p < |s.releases| && p < |s'.releases| && IsFound(s.releases, CliLatest, p)
        && IsFound(s'.releases, CliLatest, p) && Brought(s, s', p, st);
      OpenFound(s, p, v);
      BroughtOpen(s, s', p, st, v);
    }
  }

  lemma CreatedOpen(s: Store, p: nat, st: Provenance, v: Version)
    requires st.tag.Versioned? && st.tag.stream == Cli && ValidProvenance(st) && VERSION_FILE !in Names(st.assets)
    requires p < |s.releases| && Created(s, p, st) && AtMost(st.tag.version, v)
    ensures OpenAt(s, p, v)
  {
    hide OpenAt; hide Names; hide ValidProvenance;
    RecordOpen(s, p, st, s.releases[p].body.markers[0].phase, v);
  }

  lemma BroughtOpen(s: Store, s': Store, p: nat, st: Provenance, v: Version)
    requires st.tag.Versioned? && st.tag.stream == Cli && ValidProvenance(st) && VERSION_FILE !in Names(st.assets)
    requires p < |s.releases| && p < |s'.releases| && Brought(s, s', p, st) && Advance(s, s')
    requires AtMost(st.tag.version, v) && OpenAt(s, p, v)
    ensures OpenAt(s', p, v)
  {
    hide Names; hide ValidProvenance; hide Advance; hide Resolve; hide LegacyVersion;
    var r, r' := s.releases[p], s'.releases[p];
    if r'.body != r.body {
      RecordOpen(s', p, st, r'.body.markers[0].phase, v);
    } else if !Aims(r, st) && LegacyVersion(r).Some? {
      TagKept(s, s', Versioned(Cli, LegacyVersion(r).value));
    }
  }

  // ---------- runs of both operations ----------

  datatype Operation = Update(tag: Tag, sha: string) | Publish(options: PublishOptions)

  predicate CliOperations(ops: seq<Operation>) {
    forall op | op in ops :: op.Publish? ==> op.options.stream == Cli
  }

  /** No release the pointer is to be moved to is newer than `v` or has its own `version.txt`. */
  ghost predicate Suitable(s: Store, ops: seq<Operation>, v: Version) {
    forall op, k: nat, st: Provenance | op in ops && op.Update? && SourceAt(s, k, st) && st.tag == op.tag ::
      Clean(st, v)
  }

  lemma SuitableBefore(s: Store, s': Store, some: seq<Operation>, ops: seq<Operation>, v: Version)
    requires Advance(s, s') && some <= ops && Suitable(s', ops, v)
    ensures Suitable(s, some, v)
  {
    hide SourceAt; hide Advance;
    forall op, k: nat, st: Provenance | op in some && op.Update? && SourceAt(s, k, st) && st.tag == op.tag
      ensures Clean(st, v)
    {
      SourceAtPersists(s, s', k, st);
    }
  }

  lemma UpdateKeeps(s: Store, s': Store, op: Operation, v: Version)
    requires op.Update? && Advance(s, s') && MovedTo(s, s', op.tag, op.sha)
    requires Poisoned(s) ==> Rely(CliPublisher, s, s')
    ensures Open(s, v) && Suitable(s', [op], v) ==> Open(s', v)
    ensures Poisoned(s) ==> Poisoned(s') && PointerView(s') == PointerView(s)
  {
    hide Advance; hide Open; hide SourceAt; hide Rely; hide Moved; hide Poisoned; hide PointerView; hide Names;
    if Rely(CliPublisher, s, s') {
      PointerUntouched(s, s', v);
    } else if Open(s, v) && Suitable(s', [op], v) {
      var k: nat, st: Provenance :| SourceAt(s', k, st) && st.tag == op.tag && st.sha == op.sha && Moved(s, s', st);
      assert op in [op];
      MovedStaysOpen(s, s', k, st, v);
    }
  }

  lemma PointerUntouched(s: Store, s': Store, v: Version)
    requires Advance(s, s') && (Rely(CliPublisher, s, s') || PointerView(s') == PointerView(s))
    ensures PointerView(s') == PointerView(s)
    ensures Open(s, v) ==> Open(s', v)
    ensures Poisoned(s) ==> Poisoned(s')
  {
    hide PointerView; hide Open; hide IsFound; hide Muddled; hide Advance; hide Rely; hide Resolve;
    if Rely(CliPublisher, s, s') {
      RelyKeepsPointer(CliPublisher, s, s');
    }
    SameView(s, s');
    if Open(s, v) {
      OpenQuiet(s, s', v);
    }
  }

  lemma RunConsistent(history: seq<Store>, s: Store, n: nat)
    requires Run(history) && n < |history| && history[n] == s
    ensures Consistent(s) ==> Consistent(history[|history| - 1])
  {
    RunAdvances(history, n, |history| - 1);
  }

  /** One operation, at whatever request it was cut. */
  method Perform(gh: GitHub, op: Operation, ghost v: Version) returns (r: Option<Outcome<bool>>)
    requires gh.Valid() && gh.actor == CliPublisher && CliOperations([op])
    modifies gh`store, gh`history, gh`mine
    ensures gh.Continues() && (Consistent(old(gh.store)) ==> Consistent(gh.store))
    ensures Open(old(gh.store), v) && Suitable(gh.store, [op], v) ==> Open(gh.store, v)
    ensures Poisoned(old(gh.store)) ==> Poisoned(gh.store) && PointerView(gh.store) == PointerView(old(gh.store))
    ensures r.Some? <==> op.Update?
    ensures Poisoned(old(gh.store)) && r.Some? ==> !r.value.Done?
  {
    hide Advance; hide Consistent; hide Open; hide SourceAt; hide Rely; hide Moved; hide Poisoned; hide PointerView;
    ghost var s := gh.store;
    match op {
      case Update(tag, sha) =>
        var moved := UpdateCliLatest(gh, tag, sha);
        r := Some(moved);
        UpdateKeeps(s, gh.store, op, v);
      case Publish(options) =>
        assert options.stream == Cli;
        var _ := ReleasePublish.PublishVersioned(gh, options);
        r := None;
        PointerUntouched(s, gh.store, v);
    }
    RunConsistent(gh.history, s, |old(gh.history)| - 1);
  }

  method Operate(gh: GitHub, ops: seq<Operation>, ghost v: Version) returns (results: seq<Option<Outcome<bool>>>)
    requires gh.Valid() && gh.actor == CliPublisher && CliOperations(ops)
    modifies gh`store, gh`history, gh`mine
    ensures gh.Continues() && (Consistent(old(gh.store)) ==> Consistent(gh.store))
    ensures Open(old(gh.store), v) && Suitable(gh.store, ops, v) ==> Open(gh.store, v)
    ensures Poisoned(old(gh.store)) ==> Poisoned(gh.store) && PointerView(gh.store) == PointerView(old(gh.store))
    ensures |results| == |ops| && forall i | 0 <= i < |ops| :: results[i].Some? <==> ops[i].Update?
    ensures Poisoned(old(gh.store)) ==> forall i | 0 <= i < |ops| && results[i].Some? :: !results[i].value.Done?
  {
    hide Advance; hide Consistent; hide Open; hide Suitable; hide Poisoned; hide PointerView;
    results := [];
    for i := 0 to |ops|
      invariant gh.Continues() && (Consistent(old(gh.store)) ==> Consistent(gh.store))
      invariant Open(old(gh.store), v) && Suitable(gh.store, ops[..i], v) ==> Open(gh.store, v)
      invariant Poisoned(old(gh.store)) ==> Poisoned(gh.store) && PointerView(gh.store) == PointerView(old(gh.store))
      invariant |results| == i && forall j | 0 <= j < i :: results[j].Some? <==> ops[j].Update?
      invariant Poisoned(old(gh.store)) ==> forall j | 0 <= j < i && results[j].Some? :: !results[j].value.Done?
    {
      ghost var before := gh.store;
      assert ops[i] in ops;
      var result := Perform(gh, ops[i], v);
      SuitableSplit(before, gh.store, ops, i, v);
      results := results + [result];
    }
    assert ops[..|ops|] == ops;
  }

  lemma SuitableSplit(s: Store, s': Store, ops: seq<Operation>, i: nat, v: Version)
    requires Advance(s, s') && i < |ops|
    ensures Suitable(s', ops[..i + 1], v) ==> Suitable(s, ops[..i], v) && Suitable(s', [ops[i]], v)
  {
    hide SourceAt; hide Advance;
    if Suitable(s', ops[..i + 1], v) {
      assert ops[i] in ops[..i + 1];
      assert forall op | op in ops[..i] :: op in ops[..i + 1];
      SuitableBefore(s, s', ops[..i], ops[..i + 1], v);
    }
  }

  /**
   * However often and wherever runs for the newest tag or any older ones are cut, with releases published
   * in between, the newest can be served if its release is out.
   */
  method RecoverDespiteCrashes(gh: GitHub, ops: seq<Operation>, tag: Tag, sha: string)
    requires gh.Valid() && gh.actor == CliPublisher && CliOperations(ops) && tag.Versioned?
    requires Consistent(gh.store) && Open(gh.store, tag.version)
    modifies gh`store, gh`history, gh`mine
    ensures gh.Continues() && Consistent(gh.store)
    ensures Suitable(gh.store, ops + [Update(tag, sha)], tag.version) && HasSource(gh.store, tag, sha) ==>
              UpdateReady(gh.store, tag, sha)
  {
    hide Advance; hide Consistent; hide Open; hide Suitable; hide HasSource; hide UpdateReady;
    var _ := Operate(gh, ops, tag.version);
    NewestReady(gh.store, ops, tag, sha);
  }

  /** Such cut runs followed by an undisturbed one for the newest tag: if its release is out, it ends served. */
  method ServeDespiteCrashes(gh: GitHub, ops: seq<Operation>, tag: Tag, sha: string) returns (r: Outcome<bool>)
    requires gh.Valid() && gh.actor == CliPublisher && CliOperations(ops) && tag.Versioned?
    requires Consistent(gh.store) && Open(gh.store, tag.version) && Resolve(gh.store, tag) == Resolved(sha)
    modifies gh
    ensures gh.Continues()
    ensures Suitable(gh.store, ops + [Update(tag, sha)], tag.version) && HasSource(gh.store, tag, sha) ==>
              r == Done(true) && Serves(gh.store, tag, sha)
  {
    hide Advance; hide Consistent; hide Open; hide Suitable; hide HasSource; hide UpdateReady; hide Serves; hide Resolve;
    gh.faulty := true;
    ghost var start := gh.store;
    RecoverDespiteCrashes(gh, ops, tag, sha);
    gh.faulty := false;
    ghost var ready := gh.store;
    StillTagged(start, ready, tag, sha);
    r := UpdateCliLatest(gh, tag, sha);
    var all := ops + [Update(tag, sha)];
    if Suitable(gh.store, all, tag.version) {
      SuitableBefore(ready, gh.store, all, all, tag.version);
    }
    if r.Done? {
      assert r == Done(r.value);
    }
  }

  lemma StillTagged(s: Store, s': Store, tag: Tag, sha: string)
    requires Advance(s, s') && tag.Versioned? && Resolve(s, tag) == Resolved(sha)
    ensures Resolve(s', tag) == Resolved(sha)
  {
    ResolvePersists(s, s', tag);
  }

  /**
   * A whole release: however often and wherever its publication is cut, and then its update of the pointer,
   * an undisturbed run of each ends with the release served.
   */
  method ReleaseDespiteCrashes(gh: GitHub, o: PublishOptions, publishCuts: nat, updateCuts: nat)
    returns (published: Outcome<nat>, served: Outcome<bool>)
    requires gh.Valid() && gh.actor == CliPublisher && o.stream == Cli && VERSION_FILE !in Names(o.assets)
    requires Consistent(gh.store) && o.tag.Versioned? && Open(gh.store, o.tag.version)
    requires ReleasePublish.Resumable(gh.store, o, ReleasePublish.PlannedNotes(o, gh.changelog))
    modifies gh
    ensures gh.Continues() && published.Done? && served == Done(true)
    ensures Serves(gh.store, o.tag, o.sha)
  {
    hide Advance; hide Consistent; hide Open; hide UpdateReady; hide Serves; hide ReleasePublish.Resumable;
    published := PublishAtLast(gh, o, publishCuts);
    gh.faulty := true;
    for i := 0 to updateCuts
      invariant gh.Continues() && UpdateReady(gh.store, o.tag, o.sha)
    {
      var _ := UpdateCliLatest(gh, o.tag, o.sha);
    }
    gh.faulty := false;
    served := UpdateCliLatest(gh, o.tag, o.sha);
    if served.Done? {
      assert served == Done(served.value);
    }
  }

  /** Cut publications and an undisturbed one leave a release ready to be served. */
  method PublishAtLast(gh: GitHub, o: PublishOptions, cuts: nat) returns (published: Outcome<nat>)
    requires gh.Valid() && gh.actor == CliPublisher && o.stream == Cli && VERSION_FILE !in Names(o.assets)
    requires Consistent(gh.store) && o.tag.Versioned? && Open(gh.store, o.tag.version)
    requires ReleasePublish.Resumable(gh.store, o, ReleasePublish.PlannedNotes(o, gh.changelog))
    modifies gh
    ensures gh.Continues() && published.Done? && UpdateReady(gh.store, o.tag, o.sha)
  {
    hide Advance; hide Consistent; hide Open; hide UpdateReady; hide ReleasePublish.Resumable; hide Resolve; hide Names;
    hide ReleasePublish.Resumes; hide ReleasePublish.Fulfilled; hide PointerView; hide IsFound; hide SourceAt; hide TakeReady;
    ghost var notes := ReleasePublish.PlannedNotes(o, gh.changelog);
    ghost var start := gh.store;
    gh.faulty := true;
    for i := 0 to cuts
      invariant gh.Continues() && ReleasePublish.Resumable(gh.store, o, notes) && Open(gh.store, o.tag.version)
    {
      ghost var before := gh.store;
      var _ := ReleasePublish.PublishVersioned(gh, o);
      PointerUntouched(before, gh.store, o.tag.version);
    }
    gh.faulty := false;
    ghost var before := gh.store;
    published := ReleasePublish.PublishVersioned(gh, o);
    PointerUntouched(before, gh.store, o.tag.version);
    RunConsistent(gh.history, start, |old(gh.history)| - 1);
    PublishedIsReady(gh.store, published.value, o, notes);
  }

  /** What publishing leaves for the cli is what an update looks for. */
  lemma PublishedIsSource(s: Store, k: nat, o: PublishOptions, notes: string)
    requires o.stream == Cli && ReleasePublish.Resumable(s, o, notes) && IsFound(s.releases, o.tag, k)
    requires Resolve(s, o.tag) == Resolved(o.sha)
    requires ReleasePublish.Fulfilled(s.releases[k], o.stream, o.tag, o.sha) && ReleasePublish.Resumes(s.releases[k], o, notes)
    ensures SourceAt(s, k, ReleasePublish.Record(o, Complete))
  {
  }

  lemma PublishedIsReady(s: Store, k: nat, o: PublishOptions, notes: string)
    requires o.stream == Cli && ReleasePublish.Resumable(s, o, notes) && IsFound(s.releases, o.tag, k)
    requires Resolve(s, o.tag) == Resolved(o.sha)
    requires ReleasePublish.Fulfilled(s.releases[k], o.stream, o.tag, o.sha) && ReleasePublish.Resumes(s.releases[k], o, notes)
    requires Consistent(s) && o.tag.Versioned? && Open(s, o.tag.version) && VERSION_FILE !in Names(o.assets)
    ensures UpdateReady(s, o.tag, o.sha)
  {
    hide Consistent; hide Open; hide ReleasePublish.Resumable; hide Resolve; hide ReleasePublish.Resumes;
    hide ReleasePublish.Fulfilled; hide IsFound; hide SourceAt; hide TakeReady; hide UpdateReady;
    PublishedIsSource(s, k, o, notes);
    ReadyIffOpen(s, k, ReleasePublish.Record(o, Complete));
    ReadyAt(s, o.tag, o.sha, k, ReleasePublish.Record(o, Complete));
  }

  lemma NewestReady(s: Store, ops: seq<Operation>, tag: Tag, sha: string)
    requires tag.Versioned? && Consistent(s) && Suitable(s, ops, tag.version) ==> Open(s, tag.version)
    requires tag.Versioned? && Consistent(s)
    ensures Suitable(s, ops + [Update(tag, sha)], tag.version) && HasSource(s, tag, sha) ==> UpdateReady(s, tag, sha)
  {
    hide Consistent; hide Open; hide SourceAt; hide TakeReady;
    var last := Update(tag, sha);
    if Suitable(s, ops + [last], tag.version) && HasSource(s, tag, sha) {
      assert forall op | op in ops :: op in ops + [last];
      assert last in ops + [last];
      var k: nat, st: Provenance :| SourceAt(s, k, st) && st.tag == tag && st.sha == sha;
      ReadyIffOpen(s, k, st);
    }
  }

  // ---------- a release with its own version.txt ----------

  /**
   * One undisturbed update leaves the newest version servable exactly when the release has no `version.txt`
   * of its own or is outdated; otherwise the pointer's record can no longer be read.
   */
  method UpdateUndisturbed(gh: GitHub, k: nat, st: Provenance, v: Version) returns (r: Outcome<bool>)
    requires gh.Valid() && gh.actor == CliPublisher && !gh.faulty
    requires Consistent(gh.store) && SourceAt(gh.store, k, st) && AtMost(st.tag.version, v) && Open(gh.store, v)
    modifies gh`store, gh`history, gh`mine
    ensures gh.Continues()
    ensures Open(gh.store, v) <==> VERSION_FILE !in Names(st.assets) || Outdated(old(gh.store), st.tag)
    ensures !Open(gh.store, v) ==> Poisoned(gh.store) && r.Threw?
  {
    hide Advance; hide Consistent; hide Open; hide SourceAt; hide Rely; hide Poisoned; hide Outdated; hide AimsAt; hide Names;
    hide TakesOver; hide MovedTo; hide Serves; hide HasSource; hide UpdateReady; hide Resolve;
    ghost var s := gh.store;
    r := UpdateCliLatest(gh, st.tag, st.sha);
    RunConsistent(gh.history, s, |old(gh.history)| - 1);
    Aftermath(s, gh.store, k, st, v);
    if r.Done? {
      if r.value {
        assert r == Done(true);
      } else {
        assert r == Done(false);
      }
    }
  }

  lemma Aftermath(s: Store, s': Store, k: nat, st: Provenance, v: Version)
    requires Consistent(s) && Consistent(s') && Advance(s, s')
    requires SourceAt(s, k, st) && AtMost(st.tag.version, v) && Open(s, v)
    requires MovedTo(s, s', st.tag, st.sha)
    requires Outdated(s, st.tag) ==> Rely(CliPublisher, s, s')
    requires TakesOver(s, st.tag, st.sha) ==> AimsAt(s', st.tag, st.sha)
    ensures Open(s', v) <==> VERSION_FILE !in Names(st.assets) || Outdated(s, st.tag)
    ensures !Open(s', v) ==> Poisoned(s') && !Serves(s', st.tag, st.sha) && !Rely(CliPublisher, s, s')
  {
    hide Advance; hide Consistent; hide Open; hide Rely; hide Poisoned; hide Outdated; hide AimsAt; hide Names; hide Moved;
    hide TakesOver; hide Serves; hide Resolve; hide IsFound; hide Exact; hide Rely;
    SourceAtPersists(s, s', k, st);
    if Rely(CliPublisher, s, s') {
      PointerUntouched(s, s', v);
    } else if VERSION_FILE !in Names(st.assets) {
      var k': nat, st': Provenance :| SourceAt(s', k', st') && st'.tag == st.tag && st'.sha == st.sha && Moved(s, s', st');
      SourceUnique(s', k, st, k', st');
      MovedStaysOpen(s, s', k, st, v);
    }
    if VERSION_FILE in Names(st.assets) && !Outdated(s, st.tag) {
      OpenUpTo(s, st, v);
      ReadyIffOpen(s, k, st);
      ReadyAt(s, st.tag, st.sha, k, st);
      RepeatedNamePoisons(s', k, st, v);
      OwnVersionFileNeverServed(s', st.tag, st.sha, k, st);
    }
  }

  lemma OpenUpTo(s: Store, st: Provenance, v: Version)
    requires st.tag.Versioned? && Open(s, v) && !Outdated(s, st.tag)
    ensures Open(s, st.tag.version)
  {
    hide Resolve; hide Sole; hide PublishedAs; hide ValidProvenance; hide LegacyVersion;
    if exists p: nat :: IsFound(s.releases, CliLatest, p) && OpenAt(s, p, v) {
      var p: nat :| IsFound(s.releases, CliLatest, p) && OpenAt(s, p, v);
      assert !Surpassed(s.releases[p], st.tag.version);
      assert OpenAt(s, p, st.tag.version);
    }
  }

  /** The record of a release with its own `version.txt` would name that file twice. */
  lemma RepeatedNamePoisons(s: Store, k: nat, st: Provenance, v: Version)
    requires Consistent(s) && SourceAt(s, k, st) && VERSION_FILE in Names(st.assets) && AimsAt(s, st.tag, st.sha)
    ensures Poisoned(s) && !Open(s, v)
  {
    hide Resolve; hide Sole; hide PublishedAs; hide Exact; hide Names;
    var p: nat :| IsFound(s.releases, CliLatest, p) && |s.releases[p].body.markers| == 1
      && s.releases[p].body.markers[0].tag == st.tag && s.releases[p].body.markers[0].sha == st.sha;
    SourceValid(s, k, st);
    PointerNames(st);
    assert PointerSound(s, p);
    if ReadState(s.releases[p].body).Some? {
      SoundInventory(s, p, k, st);
      assert false;
    }
    assert Muddled(s.releases[p]);
    OpenFound(s, p, v);
  }

  /** No later run repairs an unreadable record: the pointer stays as it is, and every update gives up. */
  method PoisonIsForever(gh: GitHub, ops: seq<Operation>) returns (results: seq<Option<Outcome<bool>>>)
    requires gh.Valid() && gh.actor == CliPublisher && CliOperations(ops) && Poisoned(gh.store)
    modifies gh
    ensures gh.Continues() && Poisoned(gh.store) && PointerView(gh.store) == PointerView(old(gh.store))
    ensures |results| == |ops| && forall i | 0 <= i < |ops| && ops[i].Update? :: results[i].Some? && !results[i].value.Done?
  {
    hide Advance; hide Consistent; hide Open; hide Suitable; hide Poisoned; hide PointerView;
    gh.faulty := true;
    results := Operate(gh, ops, Version(0, 0, 0));
  }
}
