/** Moving `cli-latest` to a published CLI release. */
module ReleasePointer {
  import opened Wrappers
  import opened ReleaseStore
  import opened ReleaseSteps
  import opened ReleaseClient

  // ---------- the source release ----------

  /** Release `k` is the published, complete and intact release of `st`. */
  predicate SourceAt(s: Store, k: nat, st: Provenance) {
    && st.tag.Versioned? && st.tag.stream == Cli && st.phase == Complete
    && k < |s.releases| && IsFound(s.releases, st.tag, k)
    && Resolve(s, st.tag) == Resolved(st.sha)
    && var r := s.releases[k];
    && !r.draft && r.prerelease && ReadState(r.body) == Some(st) && Exact(r.assets, st.assets)
  }

  lemma SourceAtPersists(s: Store, s': Store, k: nat, st: Provenance)
    requires Advance(s, s') && SourceAt(s, k, st)
    ensures SourceAt(s', k, st)
  {
    FoundPersists(s, s', st.tag, k);
    AdvanceAt(s, s', k);
    ExactPersists(s.releases[k], s'.releases[k], st.assets);
  }

  /** The pointer's record of `st`: its inventory and the manifest naming its version. */
  function PointerState(st: Provenance, phase: Phase): Provenance
    requires st.tag.Versioned?
  {
    st.(phase := phase, assets := st.assets + [Manifest(st.tag.version)])
  }

  lemma PointerNames(st: Provenance)
    requires st.tag.Versioned? && ValidProvenance(st)
    ensures UniqueNames(PointerState(st, Pending).assets) <==> VERSION_FILE !in Names(st.assets)
    ensures VERSION_FILE !in Names(st.assets) ==> ValidProvenance(PointerState(st, Pending))
    ensures VERSION_FILE in Names(st.assets) ==> |Names(PointerState(st, Pending).assets)| < |st.assets| + 1
  {
    var all := PointerState(st, Pending).assets;
    assert all[|st.assets|].name == VERSION_FILE;
    assert forall i | 0 <= i < |st.assets| :: all[i] == st.assets[i];
    if VERSION_FILE in Names(st.assets) {
      var i :| 0 <= i < |st.assets| && st.assets[i].name == VERSION_FILE;
      assert all[i].name == all[|st.assets|].name;
      assert Names(all) == Names(st.assets);
      NameCount(st.assets);
    } else {
      assert forall i | 0 <= i < |st.assets| :: st.assets[i].name in Names(st.assets);
    }
  }

  /** A sound pointer that records this release's tag records this release's inventory. */
  lemma SoundInventory(s: Store, p: nat, k: nat, st: Provenance)
    requires p < |s.releases| && PointerSound(s, p) && SourceAt(s, k, st)
    requires ReadState(s.releases[p].body).Some? && ReadState(s.releases[p].body).value.tag == st.tag
    ensures var state := ReadState(s.releases[p].body).value;
            state == PointerState(st, state.phase)
  {
    var state := ReadState(s.releases[p].body).value;
    var m :| 0 <= m < |s.releases| && IsFound(s.releases, state.tag, m) && SourceOf(s.releases[m], state);
    FoundUnique(s.releases, st.tag, k, m);
  }

  // ---------- what users are served ----------

  predicate Serves(s: Store, tag: Tag, sha: string) {
    && Resolve(s, CliLatest) == Resolved(sha)
    && exists p | 0 <= p < |s.releases| :: IsFound(s.releases, CliLatest, p) && ServedBy(s.releases[p], tag, sha)
  }

  predicate ServedBy(r: Release, tag: Tag, sha: string) {
    && !r.draft && r.prerelease && ReadState(r.body).Some?
    && var st := ReadState(r.body).value;
    && st.tag == tag && st.sha == sha && st.phase == Complete && Exact(r.assets, st.assets)
  }

  // ---------- requests on the pointer ----------

  /** The connection holds the CLI lock, `p` is the pointer and `k` the source it is moving to. */
  ghost predicate Moving(gh: GitHub, p: nat, k: nat, st: Provenance)
    reads gh
  {
    && gh.Valid() && gh.actor == CliPublisher && st.tag.Versioned?
    && p < |gh.store.releases| && gh.store.releases[p].tag == CliLatest && IsFound(gh.store.releases, CliLatest, p)
    && SourceAt(gh.store, k, st)
  }

  /** Once the pending record of `st` is written, or if its complete record is already there. */
  ghost predicate Recorded(gh: GitHub, p: nat, st: Provenance)
    requires st.tag.Versioned?
    reads gh
  {
    && p < |gh.store.releases|
    && |gh.store.releases[p].body.markers| == 1
    && var m := gh.store.releases[p].body.markers[0];
    && m.tag == st.tag && m.sha == st.sha
    && (m.phase == Pending ==> m == PointerState(st, Pending))
    && (m.phase == Complete ==> ValidProvenance(m) && Resolve(gh.store, CliLatest) == Resolved(st.sha))
  }

  /** These cannot be the assets of a sound, complete pointer to the release of `st`. */
  predicate Unclaimed(assets: map<string, RemoteAsset>, st: Provenance)
    requires st.tag.Versioned?
  {
    var specs := PointerState(st, Complete).assets;
    UniqueNames(specs) ==> !Exact(assets, specs)
  }

  /** The pointer's record is of this release, at whatever phase. */
  predicate Aims(r: Release, st: Provenance) {
    |r.body.markers| == 1 && r.body.markers[0].tag == st.tag && r.body.markers[0].sha == st.sha
  }

  /** All that a run for the release of `st` may have done to pointer `p` and its tag, wherever it was cut. */
  predicate Brought(s: Store, s': Store, p: nat, st: Provenance)
    requires st.tag.Versioned? && p < |s.releases| && p < |s'.releases|
  {
    var r, r' := s.releases[p], s'.releases[p];
    && r'.prerelease == r.prerelease
    && Resolve(s', CliLatest) in {Resolve(s, CliLatest), Resolved(st.sha)}
    && (r'.body == r.body || r'.body.markers in {[PointerState(st, Pending)], [PointerState(st, Complete)]})
    && (r'.body != r.body && r'.body.markers == [PointerState(st, Complete)] ==> Resolve(s', CliLatest) == Resolved(st.sha))
    && (r'.body == r.body && !Aims(r, st) ==> r' == r && Resolve(s', CliLatest) == Resolve(s, CliLatest))
  }

  lemma BroughtThen(a: Store, b: Store, c: Store, p: nat, st: Provenance)
    requires st.tag.Versioned? && p < |a.releases| && p < |b.releases| && p < |c.releases|
    requires Brought(a, b, p, st) && Brought(b, c, p, st) && Aims(c.releases[p], st)
    ensures Brought(a, c, p, st)
  {
  }

  lemma MovingStays(s: Store, s': Store, p: nat, k: nat, st: Provenance)
    requires Rely(CliPublisher, s, s') && IsFound(s.releases, CliLatest, p) && SourceAt(s, k, st)
    ensures IsFound(s'.releases, CliLatest, p) && s'.releases[p] == s.releases[p] && SourceAt(s', k, st)
    ensures Resolve(s', CliLatest) == Resolve(s, CliLatest)
  {
    FoundPersists(s, s', CliLatest, p);
    SourceAtPersists(s, s', k, st);
  }

  method Ask(gh: GitHub, p: nat, k: nat, st: Provenance) returns (r: Outcome<Unit>)
    requires Moving(gh, p, k, st)
    modifies gh`store, gh`history, gh`mine
    ensures gh.Continues() && Moving(gh, p, k, st) && Rely(CliPublisher, old(gh.store), gh.store)
    ensures gh.store.releases[p] == old(gh.store).releases[p]
    ensures Resolve(gh.store, CliLatest) == Resolve(old(gh.store), CliLatest)
    ensures !r.Done? ==> r.Fault? && gh.faulty
  {
    hide Advance; hide Consistent; hide SourceAt; hide IsFound;
    r := gh.Read();
    MovingStays(old(gh.store), gh.store, p, k, st);
  }

  /** A pending record, or no claim at all, leaves the assets free to change. */
  lemma AssetStepSound(s: Store, p: nat, k: nat, st: Provenance, assets: map<string, RemoteAsset>)
    requires IsFound(s.releases, CliLatest, p) && SourceAt(s, k, st)
    requires |s.releases[p].body.markers| == 1
    requires var m := s.releases[p].body.markers[0];
             && m.tag == st.tag && m.sha == st.sha && (m.phase == Pending ==> m == PointerState(st, Pending))
    requires !(s.releases[p].body.markers[0].phase == Complete && Consistent(s))
    ensures Permitted(CliPublisher, s, Replaced(s, p, s.releases[p].(assets := assets)))
  {
    var r := s.releases[p].(assets := assets);
    var s' := Replaced(s, p, r);
    ReplaceAdvances(s, p, r);
    if Consistent(s) {
      SourceAtPersists(s, s', k, st);
      assert SourceOf(s'.releases[k], PointerState(st, Pending));
      assert PointerSound(s', p);
    }
    ReplacePointer(s, p, r);
  }

  /** Changes the pointer's assets; allowed only while its record makes no claim about them. */
  method PutAssets(gh: GitHub, p: nat, k: nat, st: Provenance, assets: map<string, RemoteAsset>) returns (r: Outcome<Unit>)
    requires Moving(gh, p, k, st) && Recorded(gh, p, st)
    requires gh.store.releases[p].body.markers[0].phase == Complete ==> Unclaimed(gh.store.releases[p].assets, st)
    modifies gh`store, gh`history, gh`mine
    ensures gh.Continues() && Moving(gh, p, k, st) && Recorded(gh, p, st)
    ensures var was := old(gh.store).releases[p];
            gh.store.releases[p] in {was, was.(assets := assets)} && (r.Done? ==> gh.store.releases[p] == was.(assets := assets))
    ensures Resolve(gh.store, CliLatest) == Resolve(old(gh.store), CliLatest)
    ensures !r.Done? ==> r.Fault? && gh.faulty
  {
    hide Advance; hide Consistent; hide SourceAt; hide IsFound; hide Exact; hide Resolve; hide ValidProvenance;
    gh.Interfere();
    MovingStays(old(gh.store), gh.store, p, k, st);
    ghost var s := gh.store;
    UnclaimedUnlessSound(s, p, k, st);
    AssetStepSound(s, p, k, st, assets);
    var next := Replaced(gh.store, p, gh.store.releases[p].(assets := assets));
    assert Rely(Lockstep, s, next);
    FoundPersists(s, next, CliLatest, p);
    SourceAtPersists(s, next, k, st);
    SameTags(s, next);
    r := gh.Send(next);
  }

  lemma SameTags(s: Store, s': Store)
    requires s'.tags == s.tags && s'.objects == s.objects
    ensures Resolve(s', CliLatest) == Resolve(s, CliLatest)
  {
  }

  /** In a consistent store a complete record of this release means its exact assets are there. */
  lemma UnclaimedUnlessSound(s: Store, p: nat, k: nat, st: Provenance)
    requires IsFound(s.releases, CliLatest, p) && SourceAt(s, k, st) && st.tag.Versioned?
    requires |s.releases[p].body.markers| == 1 && s.releases[p].body.markers[0].tag == st.tag
    requires s.releases[p].body.markers[0].phase == Complete ==> ValidProvenance(s.releases[p].body.markers[0])
    ensures s.releases[p].body.markers[0].phase == Complete && Consistent(s) ==>
              !Unclaimed(s.releases[p].assets, st)
  {
    if s.releases[p].body.markers[0].phase == Complete && Consistent(s) {
      SoundInventory(s, p, k, st);
    }
  }

  // ---------- the pointer's assets ----------

  method Discard(gh: GitHub, p: nat, k: nat, st: Provenance, name: string) returns (r: Outcome<Unit>)
    requires Moving(gh, p, k, st) && Recorded(gh, p, st)
    requires gh.store.releases[p].body.markers[0].phase == Complete ==> Unclaimed(gh.store.releases[p].assets, st)
    modifies gh`store, gh`history, gh`mine
    ensures gh.Continues() && Moving(gh, p, k, st) && Recorded(gh, p, st)
    ensures var was, now := old(gh.store).releases[p], gh.store.releases[p];
            && now in {was, was.(assets := was.assets - {name})}
            && (r.Done? ==> now == was.(assets := was.assets - {name}))
            && (r.Threw? ==> name !in was.assets)
    ensures Resolve(gh.store, CliLatest) == Resolve(old(gh.store), CliLatest)
    ensures r.Fault? ==> gh.faulty
  {
    if name !in gh.store.releases[p].assets {
      return Threw(NotFound);
    }
    r := PutAssets(gh, p, k, st, gh.store.releases[p].assets - {name});
  }

  method Upload(gh: GitHub, p: nat, k: nat, st: Provenance, name: string, asset: RemoteAsset) returns (r: Outcome<Unit>)
    requires Moving(gh, p, k, st) && Recorded(gh, p, st)
    requires name in Names(PointerState(st, Complete).assets)
    modifies gh`store, gh`history, gh`mine
    ensures gh.Continues() && Moving(gh, p, k, st) && Recorded(gh, p, st)
    ensures var was, now := old(gh.store).releases[p], gh.store.releases[p];
            && now in {was, was.(assets := was.assets[name := STUB]), was.(assets := was.assets[name := asset])}
            && (r.Done? ==> now == was.(assets := was.assets[name := asset]))
            && (r.Threw? ==> name in was.assets)
    ensures Resolve(gh.store, CliLatest) == Resolve(old(gh.store), CliLatest)
    ensures r.Fault? ==> gh.faulty
  {
    var assets := gh.store.releases[p].assets;
    if name in assets {
      return Threw(AlreadyExists);
    }
    if gh.faulty {
      if * {
        var _ := PutAssets(gh, p, k, st, assets[name := STUB]);
        return Fault;
      }
    }
    r := PutAssets(gh, p, k, st, assets[name := asset]);
  }

  function Uploaded(st: Provenance, sourceAssets: map<string, RemoteAsset>, name: string): Option<RemoteAsset>
    requires st.tag.Versioned?
  {
    if name == VERSION_FILE then
      var manifest := Manifest(st.tag.version);
      Some(RemoteAsset(AssetState.Uploaded, manifest.size, manifest.digest))
    else if name in sourceAssets then Some(sourceAssets[name])
    else None
  }

  lemma UploadedMatches(st: Provenance, sourceAssets: map<string, RemoteAsset>, i: nat)
    requires st.tag.Versioned? && Exact(sourceAssets, st.assets) && i <= |st.assets|
    ensures var spec := PointerState(st, Pending).assets[i];
            var asset := Uploaded(st, sourceAssets, spec.name);
            && asset.Some? && spec.name in Names(PointerState(st, Complete).assets)
            && (UniqueNames(PointerState(st, Pending).assets) ==> Matches(asset.value, spec))
  {
    var all := PointerState(st, Pending).assets;
    if i < |st.assets| {
      assert Holds(sourceAssets, st.assets[i]);
      assert all[i] == st.assets[i] && all[|st.assets|].name == VERSION_FILE;
    }
  }

  lemma MissingUnclaimed(assets: map<string, RemoteAsset>, st: Provenance, i: nat)
    requires st.tag.Versioned? && i <= |st.assets|
    requires !Holds(assets, PointerState(st, Pending).assets[i]) || !UniqueNames(PointerState(st, Pending).assets)
    ensures Unclaimed(assets, st)
  {
  }

  /** Makes the pointer hold recorded asset `i`, replacing whatever else has its name. */
  method FillOne(gh: GitHub, p: nat, k: nat, st: Provenance, i: nat,
                 remote: map<string, RemoteAsset>, sourceAssets: map<string, RemoteAsset>)
    returns (r: Outcome<Unit>)
    requires Moving(gh, p, k, st) && Recorded(gh, p, st) && Exact(sourceAssets, st.assets) && i <= |st.assets|
    requires UniqueNames(PointerState(st, Pending).assets) ==>
               SameAt(gh.store.releases[p].assets, remote, PointerState(st, Pending).assets[i].name)
    modifies gh`store, gh`history, gh`mine
    ensures gh.Continues() && Moving(gh, p, k, st) && Recorded(gh, p, st)
    ensures var was, now := old(gh.store).releases[p], gh.store.releases[p];
            var specs := PointerState(st, Pending).assets;
            && now == was.(assets := now.assets)
            && now.assets - {specs[i].name} == was.assets - {specs[i].name}
            && (UniqueNames(specs) ==>
                  && !r.Threw? && (r.Done? ==> Holds(now.assets, specs[i]))
                  && (Holds(was.assets, specs[i]) ==> now == was))
    ensures Resolve(gh.store, CliLatest) == Resolve(old(gh.store), CliLatest)
    ensures r.Fault? ==> gh.faulty
  {
    hide Advance; hide Consistent; hide SourceAt; hide IsFound; hide Resolve; hide UniqueNames; hide ValidProvenance;
    hide Exact;
    var expected := PointerState(st, Pending).assets[i];
    var name := expected.name;
    if name in remote {
      var _ :- Ask(gh, p, k, st);
      if Matches(remote[name], expected) {
        return Done(Unit.Unit);
      }
    }
    r := ReplaceOne(gh, p, k, st, i, name in remote, sourceAssets);
  }

  method ReplaceOne(gh: GitHub, p: nat, k: nat, st: Provenance, i: nat, listed: bool, sourceAssets: map<string, RemoteAsset>)
    returns (r: Outcome<Unit>)
    requires Moving(gh, p, k, st) && Recorded(gh, p, st) && Exact(sourceAssets, st.assets) && i <= |st.assets|
    requires var specs := PointerState(st, Pending).assets;
             UniqueNames(specs) ==> !Holds(gh.store.releases[p].assets, specs[i])
    modifies gh`store, gh`history, gh`mine
    ensures gh.Continues() && Moving(gh, p, k, st) && Recorded(gh, p, st)
    ensures var was, now := old(gh.store).releases[p], gh.store.releases[p];
            var specs := PointerState(st, Pending).assets;
            && now == was.(assets := now.assets)
            && now.assets - {specs[i].name} == was.assets - {specs[i].name}
            && (UniqueNames(specs) && (listed <==> specs[i].name in was.assets) ==>
                  !r.Threw? && (r.Done? ==> Holds(now.assets, specs[i])))
    ensures Resolve(gh.store, CliLatest) == Resolve(old(gh.store), CliLatest)
    ensures r.Fault? ==> gh.faulty
  {
    hide Advance; hide Consistent; hide SourceAt; hide IsFound; hide Resolve; hide UniqueNames; hide ValidProvenance;
    hide Exact; hide Names; hide Unclaimed; hide Uploaded;
    UploadedMatches(st, sourceAssets, i);
    MissingUnclaimed(gh.store.releases[p].assets, st, i);
    var name := PointerState(st, Pending).assets[i].name;
    if listed {
      var _ :- Discard(gh, p, k, st, name);
    }
    r := CopyOrWrite(gh, p, k, st, name, Uploaded(st, sourceAssets, name).value);
  }

  /** Uploads the manifest, or downloads a source asset and uploads it. */
  method CopyOrWrite(gh: GitHub, p: nat, k: nat, st: Provenance, name: string, asset: RemoteAsset) returns (r: Outcome<Unit>)
    requires Moving(gh, p, k, st) && Recorded(gh, p, st)
    requires name in Names(PointerState(st, Complete).assets)
    modifies gh`store, gh`history, gh`mine
    ensures gh.Continues() && Moving(gh, p, k, st) && Recorded(gh, p, st)
    ensures var was, now := old(gh.store).releases[p], gh.store.releases[p];
            && now == was.(assets := now.assets)
            && now.assets - {name} == was.assets - {name}
            && (r.Done? ==> now.assets == was.assets[name := asset])
            && (r.Threw? ==> name in was.assets)
    ensures Resolve(gh.store, CliLatest) == Resolve(old(gh.store), CliLatest)
    ensures r.Fault? ==> gh.faulty
  {
    hide Advance; hide Consistent; hide SourceAt; hide IsFound; hide Resolve; hide ValidProvenance; hide Exact;
    if name != VERSION_FILE {
      var _ :- Ask(gh, p, k, st);
    }
    r := Upload(gh, p, k, st, name, asset);
  }

  /** Gives the pointer exactly the recorded assets. */
  method SyncAssets(gh: GitHub, p: nat, k: nat, st: Provenance, sourceAssets: map<string, RemoteAsset>)
    returns (r: Outcome<Unit>)
    requires Moving(gh, p, k, st) && Recorded(gh, p, st) && Exact(sourceAssets, st.assets)
    modifies gh`store, gh`history, gh`mine
    ensures gh.Continues() && Moving(gh, p, k, st) && Recorded(gh, p, st)
    ensures var was, now := old(gh.store).releases[p], gh.store.releases[p];
            var specs := PointerState(st, Pending).assets;
            && now == was.(assets := now.assets)
            && (r.Done? ==> now.assets.Keys <= Names(specs))
            && (r.Done? && UniqueNames(specs) ==> Exact(now.assets, specs))
            && (r.Threw? ==> !UniqueNames(specs))
            && (UniqueNames(specs) && Exact(was.assets, specs) ==> now == was)
    ensures Resolve(gh.store, CliLatest) == Resolve(old(gh.store), CliLatest)
    ensures r.Fault? ==> gh.faulty
  {
    hide Advance; hide Consistent; hide SourceAt; hide IsFound; hide Resolve; hide UniqueNames; hide ValidProvenance;
    hide Exact; hide Names;
    var _ :- Ask(gh, p, k, st);
    var remote := gh.store.releases[p].assets;
    var specs := PointerState(st, Pending).assets;
    var i := 0;
    while i < |specs|
      invariant 0 <= i <= |specs|
      invariant gh.Continues() && Moving(gh, p, k, st) && Recorded(gh, p, st)
      invariant gh.store.releases[p] == old(gh.store).releases[p].(assets := gh.store.releases[p].assets)
      invariant Resolve(gh.store, CliLatest) == Resolve(old(gh.store), CliLatest)
      invariant Synced(gh.store.releases[p].assets, remote, specs, i)
      invariant UniqueNames(specs) && Exact(remote, specs) ==> gh.store.releases[p].assets == remote
    {
      ghost var before := gh.store.releases[p].assets;
      var filled := FillOne(gh, p, k, st, i, remote, sourceAssets);
      ExactAt(remote, specs, i);
      var _ :- filled;
      SyncStep(before, gh.store.releases[p].assets, remote, specs, i);
      i := i + 1;
    }
    ExactAt(remote, specs, 0);
    r := DropExtras(gh, p, k, st, remote.Keys - Names(specs), remote);
  }

  lemma ExactAt(assets: map<string, RemoteAsset>, specs: seq<AssetSpec>, i: nat)
    requires i < |specs|
    ensures Exact(assets, specs) ==> Holds(assets, specs[i]) && assets.Keys - Names(specs) == {}
  {
  }

  /** After `i` turns: the first `i` recorded assets are in place, and no other name was touched. */
  ghost predicate Synced(now: map<string, RemoteAsset>, remote: map<string, RemoteAsset>, specs: seq<AssetSpec>, i: nat) {
    && (UniqueNames(specs) ==> forall j | 0 <= j < i && j < |specs| :: Holds(now, specs[j]))
    && (UniqueNames(specs) ==> forall j | i <= j < |specs| :: SameAt(now, remote, specs[j].name))
    && (forall n | n !in Names(specs) :: n in now <==> n in remote)
  }

  lemma SyncStep(was: map<string, RemoteAsset>, now: map<string, RemoteAsset>, remote: map<string, RemoteAsset>,
                 specs: seq<AssetSpec>, i: nat)
    requires i < |specs| && Synced(was, remote, specs, i)
    requires now - {specs[i].name} == was - {specs[i].name}
    requires UniqueNames(specs) ==> Holds(now, specs[i])
    ensures Synced(now, remote, specs, i + 1)
  {
    var name := specs[i].name;
    assert forall n | n != name :: n in now <==> n in now - {name};
    assert forall n | n != name :: n in was <==> n in was - {name};
    assert forall n | n != name && n in now :: now[n] == (now - {name})[n] == (was - {name})[n] == was[n];
    assert forall n | n !in Names(specs) :: n != name;
    if UniqueNames(specs) {
      forall j | 0 <= j < |specs| && j != i ensures SameAt(now, was, specs[j].name) {
        assert specs[j].name != name;
      }
    }
  }

  method DropExtras(gh: GitHub, p: nat, k: nat, st: Provenance, extras: set<string>, ghost remote: map<string, RemoteAsset>)
    returns (r: Outcome<Unit>)
    requires Moving(gh, p, k, st) && Recorded(gh, p, st)
    requires var specs := PointerState(st, Pending).assets;
             Synced(gh.store.releases[p].assets, remote, specs, |specs|) && extras == remote.Keys - Names(specs)
    modifies gh`store, gh`history, gh`mine
    ensures gh.Continues() && Moving(gh, p, k, st) && Recorded(gh, p, st)
    ensures var was, now := old(gh.store).releases[p], gh.store.releases[p];
            var specs := PointerState(st, Pending).assets;
            && now == was.(assets := now.assets)
            && (r.Done? ==> now.assets.Keys <= Names(specs))
            && (r.Done? && UniqueNames(specs) ==> Exact(now.assets, specs))
            && !r.Threw? && (extras == {} ==> now == was)
    ensures Resolve(gh.store, CliLatest) == Resolve(old(gh.store), CliLatest)
    ensures r.Fault? ==> gh.faulty
  {
    hide Advance; hide Consistent; hide SourceAt; hide IsFound; hide Resolve; hide UniqueNames; hide ValidProvenance;
    var specs := PointerState(st, Pending).assets;
    var left := extras;
    while left != {}
      invariant left <= extras
      invariant gh.Continues() && Moving(gh, p, k, st) && Recorded(gh, p, st)
      invariant gh.store.releases[p] == old(gh.store).releases[p].(assets := gh.store.releases[p].assets)
      invariant Resolve(gh.store, CliLatest) == Resolve(old(gh.store), CliLatest)
      invariant gh.store.releases[p].assets == old(gh.store).releases[p].assets - (extras - left)
      decreases left
    {
      var name :| name in left;
      assert name in gh.store.releases[p].assets && name !in Names(specs);
      ghost var before := gh.store.releases[p].assets;
      assert before - {name} == old(gh.store).releases[p].assets - (extras - (left - {name}));
      var _ :- Discard(gh, p, k, st, name);
      left := left - {name};
    }
    ExactRest(old(gh.store).releases[p].assets, gh.store.releases[p].assets, remote, specs);
    return Done(Unit.Unit);
  }

  lemma ExactRest(was: map<string, RemoteAsset>, now: map<string, RemoteAsset>, remote: map<string, RemoteAsset>, specs: seq<AssetSpec>)
    requires Synced(was, remote, specs, |specs|)
    requires now == was - (remote.Keys - Names(specs))
    ensures now.Keys <= Names(specs)
    ensures UniqueNames(specs) ==> Exact(now, specs)
  {
    if UniqueNames(specs) {
      forall i | 0 <= i < |specs| ensures Holds(now, specs[i]) {
        assert Holds(was, specs[i]) && specs[i].name in Names(specs);
      }
      forall n | n in Names(specs) ensures n in now {
        var i :| 0 <= i < |specs| && specs[i].name == n;
        assert Holds(now, specs[i]);
      }
    }
  }

  // ---------- the tag and the final record ----------

  lemma TagStep(s: Store, p: nat, k: nat, st: Provenance)
    requires IsFound(s.releases, CliLatest, p) && SourceAt(s, k, st)
    requires s.releases[p].body.markers == [PointerState(st, Pending)]
    ensures Permitted(CliPublisher, s, Tagged(s, CliLatest, st.sha))
    ensures Advance(s, Tagged(s, CliLatest, st.sha))
    ensures Resolve(Tagged(s, CliLatest, st.sha), CliLatest) == Resolved(st.sha)
  {
    var s' := Tagged(s, CliLatest, st.sha);
    assert Advance(s, s');
    SourceAtPersists(s, s', k, st);
    assert SourceOf(s'.releases[k], PointerState(st, Pending));
    assert PointerSound(s', p);
    TagPointer(s, p, st.sha);
  }

  method MoveTag(gh: GitHub, p: nat, k: nat, st: Provenance) returns (r: Outcome<Unit>)
    requires Moving(gh, p, k, st) && Recorded(gh, p, st)
    requires UniqueNames(PointerState(st, Pending).assets)
    requires Exact(gh.store.releases[p].assets, PointerState(st, Pending).assets)
    modifies gh`store, gh`history, gh`mine
    ensures gh.Continues() && Moving(gh, p, k, st) && Recorded(gh, p, st)
    ensures gh.store.releases[p] == old(gh.store).releases[p]
    ensures Resolve(gh.store, CliLatest) in {Resolve(old(gh.store), CliLatest), Resolved(st.sha)}
    ensures r.Done? ==> Resolve(gh.store, CliLatest) == Resolved(st.sha)
    ensures r.Threw? ==> Resolve(old(gh.store), CliLatest) == Broken
    ensures r.Fault? ==> gh.faulty
  {
    hide Advance; hide Consistent; hide SourceAt; hide IsFound; hide Resolve; hide ValidProvenance;
    var resolved := ResolveTag(gh, CliLatest);
    MovingStays(old(gh.store), gh.store, p, k, st);
    var pointerSha :- resolved;
    if pointerSha == Some(st.sha) {
      return Done(Unit.Unit);
    }
    ghost var before := gh.store;
    gh.Interfere();
    MovingStays(before, gh.store, p, k, st);
    var next := Tagged(gh.store, CliLatest, st.sha);
    TagStep(gh.store, p, k, st);
    FoundPersists(gh.store, next, CliLatest, p);
    SourceAtPersists(gh.store, next, k, st);
    r := gh.Send(next);
  }

  lemma CompleteStep(s: Store, p: nat, k: nat, st: Provenance)
    requires IsFound(s.releases, CliLatest, p) && SourceAt(s, k, st)
    requires |s.releases[p].body.markers| == 1 && s.releases[p].body.markers[0].tag == st.tag
    requires s.releases[p].prerelease && Resolve(s, CliLatest) == Resolved(st.sha)
    requires UniqueNames(PointerState(st, Pending).assets) && Exact(s.releases[p].assets, PointerState(st, Pending).assets)
    ensures Permitted(CliPublisher, s, Replaced(s, p, Completed(s.releases[p], st)))
    ensures Advance(s, Replaced(s, p, Completed(s.releases[p], st)))
    ensures ServedBy(Completed(s.releases[p], st), st.tag, st.sha)
  {
    var s' := Replaced(s, p, Completed(s.releases[p], st));
    PointerNames(st);
    ReplaceAdvances(s, p, Completed(s.releases[p], st));
    SourceAtPersists(s, s', k, st);
    assert SourceOf(s'.releases[k], PointerState(st, Complete));
    SameTags(s, s');
    assert PointerSound(s', p);
    ReplacePointer(s, p, Completed(s.releases[p], st));
  }

  function Completed(r: Release, st: Provenance): Release
    requires st.tag.Versioned?
  {
    r.(body := WithState(r.body, PointerState(st, Complete)), draft := false, prerelease := true)
  }

  method MarkComplete(gh: GitHub, p: nat, k: nat, st: Provenance) returns (r: Outcome<Unit>)
    requires Moving(gh, p, k, st) && Recorded(gh, p, st)
    requires gh.store.releases[p].prerelease && Resolve(gh.store, CliLatest) == Resolved(st.sha)
    requires UniqueNames(PointerState(st, Pending).assets)
    requires Exact(gh.store.releases[p].assets, PointerState(st, Pending).assets)
    modifies gh`store, gh`history, gh`mine
    ensures gh.Continues() && Moving(gh, p, k, st)
    ensures gh.store.releases[p] in {old(gh.store).releases[p], Completed(old(gh.store).releases[p], st)}
    ensures r.Done? ==> gh.store.releases[p] == Completed(old(gh.store).releases[p], st)
    ensures ServedBy(Completed(old(gh.store).releases[p], st), st.tag, st.sha)
    ensures Resolve(gh.store, CliLatest) == Resolved(st.sha)
    ensures !r.Done? ==> r.Fault? && gh.faulty
  {
    hide Advance; hide Consistent; hide SourceAt; hide IsFound; hide Resolve; hide ValidProvenance; hide ServedBy;
    gh.Interfere();
    MovingStays(old(gh.store), gh.store, p, k, st);
    var next := Replaced(gh.store, p, Completed(gh.store.releases[p], st));
    CompleteStep(gh.store, p, k, st);
    FoundPersists(gh.store, next, CliLatest, p);
    SourceAtPersists(gh.store, next, k, st);
    SameTags(gh.store, next);
    r := gh.Send(next);
  }

  /** From a recorded target to a served one. */
  method FinishPointer(gh: GitHub, p: nat, k: nat, st: Provenance, sourceAssets: map<string, RemoteAsset>)
    returns (r: Outcome<Unit>)
    requires Moving(gh, p, k, st) && Recorded(gh, p, st) && Exact(sourceAssets, st.assets)
    requires gh.store.releases[p].prerelease
    modifies gh`store, gh`history, gh`mine
    ensures gh.Continues() && Moving(gh, p, k, st)
    ensures r.Done? ==> Resolve(gh.store, CliLatest) == Resolved(st.sha) && ServedBy(gh.store.releases[p], st.tag, st.sha)
    ensures r.Done? ==> VERSION_FILE !in Names(st.assets)
    ensures Adoptable(old(gh.store), p, st) ==> Adoptable(gh.store, p, st) && !r.Threw?
    ensures Brought(old(gh.store), gh.store, p, st) && Aims(gh.store.releases[p], st)
    ensures r.Fault? ==> gh.faulty
  {
    hide Advance; hide Consistent; hide SourceAt; hide IsFound; hide Resolve; hide ValidProvenance; hide ServedBy;
    hide Exact; hide UniqueNames; hide Adoptable; hide Names;
    SourceValid(gh.store, k, st);
    PointerNames(st);
    ghost var s0 := gh.store;
    if Adoptable(s0, p, st) { ClaimExact(s0, p, st); }
    var synced := SyncAssets(gh, p, k, st, sourceAssets);
    ghost var s1 := gh.store;
    assert Brought(s0, s1, p, st);
    if Adoptable(s0, p, st) { AdoptionStays(s0, s1, p, st); }
    var _ :- synced;
    var checked := CheckPointer(gh, p, k, st);
    ghost var s2 := gh.store;
    if Adoptable(s1, p, st) { AdoptionStays(s1, s2, p, st); }
    assert Brought(s0, s2, p, st);
    var _ :- checked;
    r := Conclude(gh, p, k, st);
    BroughtThen(s0, s2, gh.store, p, st);
  }

  /** Moves the tag, then records completion. */
  method Conclude(gh: GitHub, p: nat, k: nat, st: Provenance) returns (r: Outcome<Unit>)
    requires Moving(gh, p, k, st) && Recorded(gh, p, st) && gh.store.releases[p].prerelease
    requires UniqueNames(PointerState(st, Pending).assets)
    requires Exact(gh.store.releases[p].assets, PointerState(st, Pending).assets)
    modifies gh`store, gh`history, gh`mine
    ensures gh.Continues() && Moving(gh, p, k, st)
    ensures r.Done? ==> Resolve(gh.store, CliLatest) == Resolved(st.sha) && ServedBy(gh.store.releases[p], st.tag, st.sha)
    ensures Adoptable(old(gh.store), p, st) ==> Adoptable(gh.store, p, st) && !r.Threw?
    ensures Brought(old(gh.store), gh.store, p, st) && Aims(gh.store.releases[p], st)
    ensures r.Fault? ==> gh.faulty
  {
    hide Advance; hide Consistent; hide SourceAt; hide IsFound; hide Resolve; hide ValidProvenance; hide ServedBy;
    hide Exact; hide UniqueNames; hide Adoptable; hide Names;
    SourceValid(gh.store, k, st);
    ghost var s0 := gh.store;
    if Adoptable(s0, p, st) { ClaimExact(s0, p, st); }
    var moved := MoveTag(gh, p, k, st);
    ghost var s1 := gh.store;
    if Adoptable(s0, p, st) { AdoptionStays(s0, s1, p, st); }
    assert Brought(s0, s1, p, st);
    var _ :- moved;
    r := MarkComplete(gh, p, k, st);
    assert Brought(s1, gh.store, p, st);
    BroughtThen(s0, s1, gh.store, p, st);
    if Adoptable(s1, p, st) { CompletionAdoptable(s1, gh.store, p, st); }
  }

  lemma ClaimExact(s: Store, p: nat, st: Provenance)
    requires st.tag.Versioned? && p < |s.releases| && Adoptable(s, p, st)
    requires |s.releases[p].body.markers| == 1 && s.releases[p].body.markers[0].tag == st.tag
    ensures s.releases[p].body.markers[0].phase == Complete ==> Exact(s.releases[p].assets, PointerState(st, Pending).assets)
    ensures Resolve(s, CliLatest) != Broken && VERSION_FILE !in Names(st.assets)
  {
  }

  lemma AdoptionStays(s: Store, s': Store, p: nat, st: Provenance)
    requires st.tag.Versioned? && st.tag.stream == Cli && ValidProvenance(st)
    requires p < |s.releases| && p < |s'.releases| && Adoptable(s, p, st)
    requires |s.releases[p].body.markers| == 1
    requires var m := s.releases[p].body.markers[0];
             && m.tag == st.tag && m.sha == st.sha && (m.phase == Pending ==> m == PointerState(st, Pending))
             && (m.phase == Complete ==> s'.releases[p] == s.releases[p])
    requires s'.releases[p] == s.releases[p].(assets := s'.releases[p].assets)
    requires Resolve(s', CliLatest) in {Resolve(s, CliLatest), Resolved(st.sha)}
    ensures Adoptable(s', p, st)
  {
    PointerNames(st);
  }

  lemma CompletionAdoptable(s: Store, s': Store, p: nat, st: Provenance)
    requires st.tag.Versioned? && st.tag.stream == Cli && ValidProvenance(st)
    requires p < |s.releases| && p < |s'.releases| && Adoptable(s, p, st)
    requires s'.releases[p] in {s.releases[p], Completed(s.releases[p], st)}
    requires |s.releases[p].body.markers| == 1
    requires s.releases[p].body.markers[0].tag == st.tag && s.releases[p].body.markers[0].sha == st.sha
    requires Exact(s.releases[p].assets, PointerState(st, Pending).assets)
    requires Resolve(s, CliLatest) == Resolve(s', CliLatest) == Resolved(st.sha)
    ensures Adoptable(s', p, st)
  {
    PointerNames(st);
  }

  lemma SourceValid(s: Store, k: nat, st: Provenance)
    requires SourceAt(s, k, st)
    ensures ValidProvenance(st) && UniqueNames(st.assets) && ValidSha(st.sha) && st.tag.stream == Cli
  {
  }

  /** A re-run aiming at the release of `st` can bring pointer `p` to it. */
  predicate Adoptable(s: Store, p: nat, st: Provenance)
    requires st.tag.Versioned? && p < |s.releases|
  {
    VERSION_FILE !in Names(st.assets) && Takeable(s, p, st)
  }

  /** Nothing about pointer `p` makes an update to the release of `st` give up. */
  predicate Takeable(s: Store, p: nat, st: Provenance)
    requires st.tag.Versioned? && p < |s.releases|
  {
    var r, v := s.releases[p], st.tag.version;
    && r.prerelease && Resolve(s, CliLatest) != Broken
    && if MentionsMarker(r.body) then AdoptableRecord(s, r, st)
       else
         && LegacyVersion(r).Some?
         && var current := LegacyVersion(r).value;
         && AtMost(current, v)
         && Resolve(s, Versioned(Cli, current)).Resolved?
         && Resolve(s, CliLatest) == Resolve(s, Versioned(Cli, current))
         && (current == v ==> Resolve(s, CliLatest) == Resolved(st.sha))
  }

  predicate AdoptableRecord(s: Store, r: Release, st: Provenance)
    requires st.tag.Versioned?
  {
    && ReadState(r.body).Some?
    && var m := ReadState(r.body).value;
    && m.tag.Versioned? && m.tag.stream == Cli && AtMost(m.tag.version, st.tag.version)
    && (m.tag.version == st.tag.version ==> m.sha == st.sha)
    && (m.phase == Complete ==> Resolve(s, CliLatest) == Resolved(m.sha))
    && (m.phase == Complete && m.tag == st.tag ==> m == PointerState(st, Complete) && Exact(r.assets, m.assets))
  }

  /** Every check of a pointer found: its channel, and its record or what stands in for one. */
  predicate Passes(s: Store, r: Release, latest: Resolution, st: Provenance)
    requires st.tag.Versioned?
  {
    && r.prerelease
    && if MentionsMarker(r.body) then
         && ReadState(r.body).Some?
         && var m := ReadState(r.body).value;
         && m.tag.Versioned? && m.tag.stream == Cli && AtMost(m.tag.version, st.tag.version)
         && (m.tag.version == st.tag.version ==> m.sha == st.sha)
         && (m.phase == Complete ==> latest == Resolved(m.sha))
         && (m.phase == Complete && m.tag == st.tag ==> Exact(r.assets, m.assets))
       else
         && LegacyVersion(r).Some?
         && var tag := Versioned(Cli, LegacyVersion(r).value);
         && AtMost(tag.version, st.tag.version) && Resolve(s, tag).Resolved? && latest == Resolve(s, tag)
         && (tag == st.tag ==> latest == Resolved(st.sha))
  }

  lemma PassesStays(s: Store, s': Store, r: Release, latest: Resolution, st: Provenance)
    requires st.tag.Versioned? && Advance(s, s') && Passes(s, r, latest, st)
    ensures Passes(s', r, latest, st)
  {
    if LegacyVersion(r).Some? {
      TagKept(s, s', Versioned(Cli, LegacyVersion(r).value));
    }
  }

  /** The last verification before the tag moves. */
  method CheckPointer(gh: GitHub, p: nat, k: nat, st: Provenance) returns (r: Outcome<Unit>)
    requires Moving(gh, p, k, st) && Recorded(gh, p, st)
    requires gh.store.releases[p].assets.Keys <= Names(PointerState(st, Pending).assets)
    modifies gh`store, gh`history, gh`mine
    ensures gh.Continues() && Moving(gh, p, k, st) && Recorded(gh, p, st)
    ensures gh.store.releases[p] == old(gh.store).releases[p]
    ensures Resolve(gh.store, CliLatest) == Resolve(old(gh.store), CliLatest)
    ensures var specs := PointerState(st, Pending).assets;
            && (r.Done? ==> UniqueNames(specs) && Exact(gh.store.releases[p].assets, specs))
            && (r.Threw? ==> !UniqueNames(specs) || !Exact(gh.store.releases[p].assets, specs))
    ensures r.Fault? ==> gh.faulty
  {
    hide Advance; hide Consistent; hide IsFound; hide Resolve; hide ValidProvenance; hide Exact; hide Names;
    SourceValid(gh.store, k, st);
    PointerNames(st);
    var assets := VerifiedAssets(gh, p, PointerState(st, Pending).assets);
    MovingStays(old(gh.store), gh.store, p, k, st);
    FewerThanNames(gh.store.releases[p].assets, Names(PointerState(st, Pending).assets));
    var _ :- assets;
    ghost var before := gh.store;
    r := AssertTag(gh, st.tag, st.sha);
    MovingStays(before, gh.store, p, k, st);
  }

  lemma FewerThanNames(assets: map<string, RemoteAsset>, names: set<string>)
    requires assets.Keys <= names
    ensures |assets| <= |names|
  {
    assert |names - assets.Keys| == |names| - |assets.Keys|;
  }

  // ---------- deciding what to do with the pointer found ----------

  /** Another, newer version is recorded; this one is already served; its record is to be written or is there. */
  datatype Claim = Newer | Served | Write | Keep

  /** The pointer records a version newer than `v`. */
  predicate Surpassed(r: Release, v: Version) {
    Floor(r).Some? && !AtMost(Floor(r).value, v)
  }

  /** What the decision may rest on; nothing of the publisher's has changed meanwhile. */
  ghost predicate Judged(gh: GitHub, p: nat, st: Provenance, claim: Claim)
    requires st.tag.Versioned? && p < |gh.store.releases|
    reads gh
  {
    var r := gh.store.releases[p];
    match claim
    case Newer => Surpassed(r, st.tag.version)
    case Served => ServedBy(r, st.tag, st.sha) && Resolve(gh.store, CliLatest) == Resolved(st.sha)
    case Write => FloorAtMost(Floor(r), Some(st.tag.version))
    case Keep => Recorded(gh, p, st)
  }

  method InspectRecord(gh: GitHub, p: nat, k: nat, st: Provenance) returns (r: Outcome<Claim>)
    requires Moving(gh, p, k, st) && gh.store.releases[p].prerelease && st.tag.stream == Cli
    modifies gh`store, gh`history, gh`mine
    ensures gh.Continues() && Moving(gh, p, k, st) && Rely(CliPublisher, old(gh.store), gh.store)
    ensures gh.store.releases[p] == old(gh.store).releases[p]
    ensures Resolve(gh.store, CliLatest) == Resolve(old(gh.store), CliLatest)
    ensures r.Done? ==> Judged(gh, p, st, r.value)
    ensures AdoptableRecord(old(gh.store), gh.store.releases[p], st) ==> !r.Threw? && r != Done(Newer)
    ensures r.Done? ==> ReadState(gh.store.releases[p].body).Some?
    ensures var state := ReadState(old(gh.store).releases[p].body);
            state.Some? && state.value.tag.Versioned? && state.value.tag.stream == Cli && !AtMost(state.value.tag.version, st.tag.version) ==>
              r == Done(Newer)
    ensures r.Done? && r.value != Newer ==> Passes(gh.store, old(gh.store).releases[p], Resolve(old(gh.store), CliLatest), st)
    ensures ServedBy(old(gh.store).releases[p], st.tag, st.sha) && Resolve(old(gh.store), CliLatest) == Resolved(st.sha) ==>
              r.Fault? || r == Done(Served)
    ensures r.Fault? ==> gh.faulty
  {
    hide Advance; hide Consistent; hide SourceAt; hide IsFound; hide Resolve; hide ValidProvenance; hide Exact; hide Rely;
    RelyReflexive(CliPublisher, gh.store);
    var pointer := gh.store.releases[p];
    if ReadState(pointer.body).None? {
      return Threw(NoProvenance);
    }
    var previous := ReadState(pointer.body).value;
    if !(previous.tag.Versioned? && previous.tag.stream == Cli) {
      return Threw(InvalidTag);
    }
    if !AtMost(previous.tag.version, st.tag.version) {
      return Done(Newer);
    }
    if previous.tag.version == st.tag.version && previous.sha != st.sha {
      return Threw(ProvenanceConflict);
    }
    if previous.phase == Pending {
      return Done(Write);
    }
    var tagged := AssertTag(gh, CliLatest, previous.sha);
    MovingStays(old(gh.store), gh.store, p, k, st);
    RecordValid(pointer.body);
    var _ :- tagged;
    if previous.tag != st.tag {
      return Done(Write);
    }
    ghost var before := gh.store;
    r := InspectServed(gh, p, k, st, previous);
    RelyTransitive(CliPublisher, old(gh.store), before, gh.store);
  }

  lemma RecordValid(body: Body)
    requires ReadState(body).Some?
    ensures var st := ReadState(body).value;
            body.markers == [st] && ValidProvenance(st) && UniqueNames(st.assets) && ValidSha(st.sha)
  {
  }

  method InspectServed(gh: GitHub, p: nat, k: nat, st: Provenance, previous: Provenance) returns (r: Outcome<Claim>)
    requires Moving(gh, p, k, st) && gh.store.releases[p].prerelease && st.tag.stream == Cli
    requires ReadState(gh.store.releases[p].body) == Some(previous)
    requires previous.tag == st.tag && previous.sha == st.sha && previous.phase == Complete
    requires Resolve(gh.store, CliLatest) == Resolved(st.sha)
    modifies gh`store, gh`history, gh`mine
    ensures gh.Continues() && Moving(gh, p, k, st) && Rely(CliPublisher, old(gh.store), gh.store)
    ensures gh.store.releases[p] == old(gh.store).releases[p]
    ensures Resolve(gh.store, CliLatest) == Resolve(old(gh.store), CliLatest)
    ensures r.Done? ==> r.value in {Served, Keep} && Judged(gh, p, st, r.value)
    ensures r.Threw? ==> !Exact(gh.store.releases[p].assets, previous.assets)
    ensures r.Done? ==> Exact(gh.store.releases[p].assets, previous.assets)
    ensures r.Done? && !gh.store.releases[p].draft ==> r.value == Served
    ensures r.Fault? ==> gh.faulty
  {
    hide Advance; hide Consistent; hide SourceAt; hide IsFound; hide Resolve; hide ValidProvenance; hide Exact; hide Rely;
    RecordValid(gh.store.releases[p].body);
    var assets := VerifiedAssets(gh, p, previous.assets);
    MovingStays(old(gh.store), gh.store, p, k, st);
    var _ :- assets;
    ghost var before := gh.store;
    var tagged := AssertTag(gh, CliLatest, st.sha);
    MovingStays(before, gh.store, p, k, st);
    RelyTransitive(CliPublisher, old(gh.store), before, gh.store);
    var _ :- tagged;
    return Done(if gh.store.releases[p].draft then Keep else Served);
  }

  method InspectLegacy(gh: GitHub, p: nat, k: nat, st: Provenance) returns (r: Outcome<Claim>)
    requires Moving(gh, p, k, st) && st.tag.stream == Cli
    requires !MentionsMarker(gh.store.releases[p].body)
    modifies gh`store, gh`history, gh`mine
    ensures gh.Continues() && Moving(gh, p, k, st) && Rely(CliPublisher, old(gh.store), gh.store)
    ensures gh.store.releases[p] == old(gh.store).releases[p]
    ensures Resolve(gh.store, CliLatest) == Resolve(old(gh.store), CliLatest)
    ensures r.Done? ==> r.value in {Newer, Write} && Judged(gh, p, st, r.value)
    ensures Takeable(old(gh.store), p, st) ==> !r.Threw? && r != Done(Newer)
    ensures var current := LegacyVersion(old(gh.store).releases[p]);
            current.Some? && !AtMost(current.value, st.tag.version) ==> r.Fault? || r == Done(Newer)
    ensures r.Done? ==>
              var assets := old(gh.store).releases[p].assets;
              && "version.txt" in assets && assets["version.txt"].state == AssetState.Uploaded && assets["version.txt"].size <= 100
              && assets["version.txt"].content.spells.Some?
              && (r.value == Newer <==> !AtMost(assets["version.txt"].content.spells.value, st.tag.version))
    ensures r.Done? && r.value != Newer && gh.store.releases[p].prerelease ==>
              Passes(gh.store, old(gh.store).releases[p], Resolve(old(gh.store), CliLatest), st)
    ensures r.Fault? ==> gh.faulty
  {
    hide Advance; hide Consistent; hide SourceAt; hide IsFound; hide ValidProvenance; hide Exact; hide Rely; hide Resolve;
    var _ :- Ask(gh, p, k, st);
    ghost var s0 := gh.store;
    var manifest := LegacyVersion(gh.store.releases[p]);
    if manifest.None? {
      return Threw(UnverifiedLegacy);
    }
    var current := manifest.value;
    var read := Ask(gh, p, k, st);
    RelyTransitive(CliPublisher, old(gh.store), s0, gh.store);
    var _ :- read;
    if !AtMost(current, st.tag.version) {
      return Done(Newer);
    }
    var tag := Versioned(Cli, current);
    TagKept(old(gh.store), gh.store, tag);
    ghost var s1 := gh.store;
    var resolved := ResolveTag(gh, tag);
    MovingStays(s1, gh.store, p, k, st);
    RelyTransitive(CliPublisher, old(gh.store), s1, gh.store);
    TagKept(s1, gh.store, tag);
    var currentSha :- resolved;
    if currentSha.None? {
      return Threw(LegacyConflict);
    }
    ghost var s2 := gh.store;
    var pointerSha := ResolveTag(gh, CliLatest);
    MovingStays(s2, gh.store, p, k, st);
    RelyTransitive(CliPublisher, old(gh.store), s2, gh.store);
    TagKept(s2, gh.store, tag);
    var latest :- pointerSha;
    if latest != currentSha {
      return Threw(LegacyConflict);
    }
    if current == st.tag.version && currentSha != Some(st.sha) {
      return Threw(LegacyConflict);
    }
    return Done(Write);
  }

  lemma TagKept(s: Store, s': Store, tag: Tag)
    requires Advance(s, s') && tag != CliLatest
    ensures Resolve(s, tag).Resolved? ==> Resolve(s', tag) == Resolve(s, tag)
  {
  }

  // ---------- recording the target ----------

  function Aimed(r: Release, st: Provenance): Release
    requires st.tag.Versioned?
  {
    r.(body := WithState(r.body, PointerState(st, Pending)))
  }

  lemma AimStep(s: Store, p: nat, k: nat, st: Provenance)
    requires IsFound(s.releases, CliLatest, p) && SourceAt(s, k, st)
    requires FloorAtMost(Floor(s.releases[p]), Some(st.tag.version))
    ensures Permitted(CliPublisher, s, Replaced(s, p, Aimed(s.releases[p], st)))
    ensures Advance(s, Replaced(s, p, Aimed(s.releases[p], st)))
  {
    var s' := Replaced(s, p, Aimed(s.releases[p], st));
    ReplaceAdvances(s, p, Aimed(s.releases[p], st));
    SourceAtPersists(s, s', k, st);
    assert SourceOf(s'.releases[k], PointerState(st, Pending));
    ReplacePointer(s, p, Aimed(s.releases[p], st));
  }

  lemma AimedAdoptable(s: Store, s': Store, p: nat, st: Provenance)
    requires st.tag.Versioned? && st.tag.stream == Cli && ValidProvenance(st)
    requires p < |s.releases| && p < |s'.releases| && Adoptable(s, p, st)
    requires s'.releases[p] == Aimed(s.releases[p], st) && Resolve(s', CliLatest) == Resolve(s, CliLatest)
    ensures Adoptable(s', p, st)
  {
    PointerNames(st);
  }

  /** Persists the newer version before any asset or the tag changes. */
  method WriteRecord(gh: GitHub, p: nat, k: nat, st: Provenance) returns (r: Outcome<Unit>)
    requires Moving(gh, p, k, st) && FloorAtMost(Floor(gh.store.releases[p]), Some(st.tag.version))
    modifies gh`store, gh`history, gh`mine
    ensures gh.Continues() && Moving(gh, p, k, st)
    ensures gh.store.releases[p] in {old(gh.store).releases[p], Aimed(old(gh.store).releases[p], st)}
    ensures Resolve(gh.store, CliLatest) == Resolve(old(gh.store), CliLatest)
    ensures Rely(CliPublisher, old(gh.store), gh.store) || gh.store.releases[p] == Aimed(old(gh.store).releases[p], st)
    ensures r.Done? ==> gh.store.releases[p] == Aimed(old(gh.store).releases[p], st) && Recorded(gh, p, st)
    ensures !r.Done? ==> r.Fault? && gh.faulty
  {
    hide Advance; hide Consistent; hide SourceAt; hide IsFound; hide Resolve; hide ValidProvenance; hide Rely;
    gh.Interfere();
    MovingStays(old(gh.store), gh.store, p, k, st);
    var next := Replaced(gh.store, p, Aimed(gh.store.releases[p], st));
    AimStep(gh.store, p, k, st);
    FoundPersists(gh.store, next, CliLatest, p);
    SourceAtPersists(gh.store, next, k, st);
    SameTags(gh.store, next);
    r := gh.Send(next);
  }

  /** The pointer's body speaks of a record, and none can be read. */
  predicate Muddled(r: Release) {
    MentionsMarker(r.body) && ReadState(r.body).None?
  }

  /** A pointer on its channel that can be read to record a version newer than `v`. */
  predicate Declines(r: Release, v: Version) {
    && r.prerelease && Surpassed(r, v) && !Muddled(r)
    && (ReadState(r.body).Some? ==> ReadState(r.body).value.tag.Versioned? && ReadState(r.body).value.tag.stream == Cli)
  }

  /** An existing pointer: leave it to a newer version, report it served, or bring it to the release. */
  method AdvancePointer(gh: GitHub, p: nat, k: nat, st: Provenance, sourceAssets: map<string, RemoteAsset>)
    returns (r: Outcome<bool>)
    requires Moving(gh, p, k, st) && Exact(sourceAssets, st.assets) && st.tag.stream == Cli && ValidProvenance(st)
    modifies gh`store, gh`history, gh`mine
    ensures gh.Continues() && Moving(gh, p, k, st)
    ensures r == Done(true) ==> Resolve(gh.store, CliLatest) == Resolved(st.sha) && ServedBy(gh.store.releases[p], st.tag, st.sha)
    ensures r == Done(false) ==> Rely(CliPublisher, old(gh.store), gh.store) && Judged(gh, p, st, Newer)
    ensures Adoptable(old(gh.store), p, st) ==> Adoptable(gh.store, p, st) && !r.Threw? && r != Done(false)
    ensures || Rely(CliPublisher, old(gh.store), gh.store)
            || (FloorAtMost(Floor(old(gh.store).releases[p]), Some(st.tag.version)) && Brought(old(gh.store), gh.store, p, st))
    ensures Surpassed(old(gh.store).releases[p], st.tag.version) ==> Rely(CliPublisher, old(gh.store), gh.store) && r != Done(true)
    ensures Muddled(old(gh.store).releases[p]) ==> Rely(CliPublisher, old(gh.store), gh.store) && !r.Done?
    ensures !gh.faulty && Takeable(old(gh.store), p, st) ==> Aims(gh.store.releases[p], st)
    ensures Declines(old(gh.store).releases[p], st.tag.version) ==> r.Fault? || r == Done(false)
    ensures || Passes(gh.store, old(gh.store).releases[p], Resolve(old(gh.store), CliLatest), st)
            || (Rely(CliPublisher, old(gh.store), gh.store) && r != Done(true))
    ensures ServedBy(old(gh.store).releases[p], st.tag, st.sha) && Resolve(old(gh.store), CliLatest) == Resolved(st.sha) ==>
              Rely(CliPublisher, old(gh.store), gh.store) && (r.Fault? || r == Done(true))
    ensures r.Fault? ==> gh.faulty
  {
    hide Advance; hide Consistent; hide SourceAt; hide IsFound; hide Resolve; hide ValidProvenance; hide Exact;
    hide ServedBy; hide Rely; hide AdoptableRecord; hide LegacyVersion; hide Passes;
    var pointer := gh.store.releases[p];
    RelyReflexive(CliPublisher, gh.store);
    ServedMeans(pointer, st);
    if !pointer.prerelease {
      return Threw(WrongChannel);
    }
    ghost var s0 := gh.store;
    var judged: Outcome<Claim>;
    if MentionsMarker(pointer.body) {
      judged := InspectRecord(gh, p, k, st);
    } else {
      judged := InspectLegacy(gh, p, k, st);
    }
    AdoptableQuietly(s0, gh.store, p, st);
    var claim :- judged;
    if claim == Newer {
      return Done(false);
    }
    if claim == Served {
      ServedAims(gh.store.releases[p], st);
      return Done(true);
    }
    ghost var s1 := gh.store;
    r := BringPointer(gh, p, k, st, sourceAssets, claim);
    PassesStays(s1, gh.store, pointer, Resolve(s0, CliLatest), st);
  }

  lemma ServedMeans(r: Release, st: Provenance)
    requires st.tag.Versioned?
    ensures ServedBy(r, st.tag, st.sha) ==> r.prerelease && MentionsMarker(r.body)
  {
  }

  lemma ServedAims(r: Release, st: Provenance)
    requires st.tag.Versioned? && ServedBy(r, st.tag, st.sha)
    ensures Aims(r, st) && !Surpassed(r, st.tag.version)
  {
  }

  lemma AdoptableQuietly(s: Store, s': Store, p: nat, st: Provenance)
    requires st.tag.Versioned? && p < |s.releases| && p < |s'.releases|
    requires Advance(s, s') && s'.releases[p] == s.releases[p]
    requires Resolve(s', CliLatest) == Resolve(s, CliLatest)
    ensures Takeable(s, p, st) ==> Takeable(s', p, st)
    ensures Adoptable(s, p, st) ==> Adoptable(s', p, st)
  {
    if Takeable(s, p, st) && !MentionsMarker(s.releases[p].body) {
      TagKept(s, s', Versioned(Cli, LegacyVersion(s.releases[p]).value));
    }
  }

  method BringPointer(gh: GitHub, p: nat, k: nat, st: Provenance, sourceAssets: map<string, RemoteAsset>, claim: Claim)
    returns (r: Outcome<bool>)
    requires Moving(gh, p, k, st) && Exact(sourceAssets, st.assets) && st.tag.stream == Cli && ValidProvenance(st)
    requires claim in {Write, Keep} && Judged(gh, p, st, claim) && gh.store.releases[p].prerelease
    modifies gh`store, gh`history, gh`mine
    ensures gh.Continues() && Moving(gh, p, k, st)
    ensures r.Done? ==>
              && r.value && Resolve(gh.store, CliLatest) == Resolved(st.sha)
              && ServedBy(gh.store.releases[p], st.tag, st.sha)
    ensures Adoptable(old(gh.store), p, st) ==> Adoptable(gh.store, p, st) && !r.Threw?
    ensures Brought(old(gh.store), gh.store, p, st)
    ensures !gh.faulty ==> Aims(gh.store.releases[p], st)
    ensures r.Fault? ==> gh.faulty
  {
    hide Advance; hide Consistent; hide SourceAt; hide IsFound; hide Resolve; hide ValidProvenance; hide Exact;
    hide ServedBy; hide Rely; hide Adoptable;
    if claim == Write {
      ghost var s0 := gh.store;
      var written := WriteRecord(gh, p, k, st);
      if Adoptable(s0, p, st) {
        if gh.store.releases[p] == Aimed(s0.releases[p], st) {
          AimedAdoptable(s0, gh.store, p, st);
        } else {
          AdoptableQuietly(s0, gh.store, p, st);
        }
      }
      var _ :- written;
    }
    var _ :- FinishPointer(gh, p, k, st, sourceAssets);
    return Done(true);
  }

  // ---------- the first pointer ----------

  function PointerNotes(): string {
    "Rolling pointer to the latest published CLI release; version.txt identifies its version."
  }

  function FreshPointer(st: Provenance): Release
    requires st.tag.Versioned?
  {
    Release(CliLatest, Body(PointerNotes(), [PointerState(st, Pending)]), true, true, map[])
  }

  /** A pointer a run for the release of `st` has made, wherever it was cut. */
  predicate Created(s: Store, p: nat, st: Provenance)
    requires st.tag.Versioned? && p < |s.releases|
  {
    var r := s.releases[p];
    && r.prerelease && Aims(r, st) && Resolve(s, CliLatest) in {Missing, Resolved(st.sha)}
    && r.body.markers in {[PointerState(st, Pending)], [PointerState(st, Complete)]}
    && (r.body.markers == [PointerState(st, Complete)] ==> Resolve(s, CliLatest) == Resolved(st.sha))
  }

  ghost predicate HasCreated(s: Store, st: Provenance)
    requires st.tag.Versioned?
  {
    exists p: nat :: IsFound(s.releases, CliLatest, p) && Created(s, p, st)
  }

  lemma FreshStep(s: Store, k: nat, st: Provenance)
    requires IsAbsent(s.releases, CliLatest) && SourceAt(s, k, st)
    ensures var s' := Appended(s, FreshPointer(st));
            && Permitted(CliPublisher, s, s') && Advance(s, s')
            && IsFound(s'.releases, CliLatest, |s.releases|) && SourceAt(s', k, st)
            && Resolve(s', CliLatest) == Resolve(s, CliLatest)
            && (Resolve(s, CliLatest) == Missing ==> Created(s', |s.releases|, st) && HasCreated(s', st))
  {
    hide PointerNotes;
    var s' := Appended(s, FreshPointer(st));
    assert Advance(s, s');
    SourceAtPersists(s, s', k, st);
    assert SourceOf(s'.releases[k], PointerState(st, Pending));
    AppendPointer(s, FreshPointer(st));
  }

  lemma FreshAdoptable(s: Store, p: nat, st: Provenance)
    requires st.tag.Versioned? && st.tag.stream == Cli && ValidProvenance(st) && VERSION_FILE !in Names(st.assets)
    requires p < |s.releases| && s.releases[p] == FreshPointer(st) && Resolve(s, CliLatest) != Broken
    ensures Adoptable(s, p, st)
  {
    hide PointerNotes;
    PointerNames(st);
  }

  /** The publisher can serve the release of `st`: there is nothing yet, or a pointer it can bring there. */
  predicate PointerReady(s: Store, st: Provenance)
    requires st.tag.Versioned?
  {
    VERSION_FILE !in Names(st.assets) && TakeReady(s, st)
  }

  /** Nothing about the pointer, if there is one, makes an update to the release of `st` give up. */
  predicate TakeReady(s: Store, st: Provenance)
    requires st.tag.Versioned?
  {
    || (IsAbsent(s.releases, CliLatest) && Resolve(s, CliLatest) == Missing)
    || exists p | 0 <= p < |s.releases| :: IsFound(s.releases, CliLatest, p) && Takeable(s, p, st)
  }

  /** There was no pointer and no tag of one, or the pointer passed every check. */
  ghost predicate Vetted(s: Store, s': Store, st: Provenance)
    requires st.tag.Versioned?
  {
    || (IsAbsent(s.releases, CliLatest) && Resolve(s, CliLatest) == Missing)
    || exists p: nat | p < |s.releases| :: IsFound(s.releases, CliLatest, p) && Passes(s', s.releases[p], Resolve(s, CliLatest), st)
  }

  /** All that an update to the release of `st` may have done to the pointer, wherever it was cut. */
  ghost predicate Moved(s: Store, s': Store, st: Provenance)
    requires st.tag.Versioned?
  {
    || Rely(CliPublisher, s, s')
    || (IsAbsent(s.releases, CliLatest) && Resolve(s, CliLatest) == Missing && HasCreated(s', st))
    || (exists p: nat | p < |s.releases| && p < |s'.releases| ::
          && IsFound(s.releases, CliLatest, p) && IsFound(s'.releases, CliLatest, p)
          && FloorAtMost(Floor(s.releases[p]), Some(st.tag.version)) && Brought(s, s', p, st))
  }

  /** The pointer is there and records this tag and commit. */
  ghost predicate AimsAt(s: Store, tag: Tag, sha: string) {
    exists p: nat :: IsFound(s.releases, CliLatest, p) && |s.releases[p].body.markers| == 1
      && s.releases[p].body.markers[0].tag == tag && s.releases[p].body.markers[0].sha == sha
  }

  /** The pointer's body speaks of a record that cannot be read. */
  ghost predicate Poisoned(s: Store) {
    exists p: nat :: IsFound(s.releases, CliLatest, p) && Muddled(s.releases[p])
  }

  lemma ReadyAbsent(s: Store, st: Provenance)
    requires st.tag.Versioned? && IsAbsent(s.releases, CliLatest)
    ensures TakeReady(s, st) <==> Resolve(s, CliLatest) == Missing
    ensures PointerReady(s, st) <==> VERSION_FILE !in Names(st.assets) && Resolve(s, CliLatest) == Missing
  {
  }

  method CreatePointer(gh: GitHub, k: nat, st: Provenance) returns (r: Outcome<nat>)
    requires gh.Valid() && gh.actor == CliPublisher && SourceAt(gh.store, k, st)
    requires st.tag.Versioned? && st.tag.stream == Cli && ValidProvenance(st)
    requires IsAbsent(gh.store.releases, CliLatest)
    modifies gh`store, gh`history, gh`mine
    ensures gh.Continues()
    ensures r.Done? ==> Moving(gh, r.value, k, st) && gh.store.releases[r.value] == FreshPointer(st) && Recorded(gh, r.value, st)
    ensures r.Done? ==> Resolve(old(gh.store), CliLatest) == Missing
    ensures r.Threw? ==> Resolve(old(gh.store), CliLatest) != Missing
    ensures PointerReady(old(gh.store), st) ==>
              PointerReady(gh.store, st) && !r.Threw? && (r.Done? ==> Adoptable(gh.store, r.value, st))
    ensures r.Done? ==> Created(gh.store, r.value, st)
    ensures Rely(CliPublisher, old(gh.store), gh.store) || (Resolve(old(gh.store), CliLatest) == Missing && HasCreated(gh.store, st))
    ensures r.Fault? ==> gh.faulty
  {
    hide PointerNotes; hide Advance; hide Consistent; hide SourceAt; hide Resolve; hide ValidProvenance; hide Rely; hide Adoptable;
    hide IsFound; hide PointerReady; hide IsAbsent; hide Names; hide Exact; hide Moving; hide Recorded; hide Created; hide HasCreated;
    ReadyAbsent(gh.store, st);
    var resolved := ResolveTag(gh, CliLatest);
    AbsentStays(old(gh.store), gh.store, k, st);
    ReadyAbsent(gh.store, st);
    var orphan :- resolved;
    if orphan.Some? {
      return Threw(OrphanPointerTag);
    }
    ghost var looked := gh.store;
    r := PostPointer(gh, k, st);
    if Rely(CliPublisher, looked, gh.store) {
      RelyTransitive(CliPublisher, old(gh.store), looked, gh.store);
    }
  }

  method PostPointer(gh: GitHub, k: nat, st: Provenance) returns (r: Outcome<nat>)
    requires gh.Valid() && gh.actor == CliPublisher && SourceAt(gh.store, k, st)
    requires st.tag.Versioned? && st.tag.stream == Cli && ValidProvenance(st)
    requires IsAbsent(gh.store.releases, CliLatest) && Resolve(gh.store, CliLatest) == Missing
    modifies gh`store, gh`history, gh`mine
    ensures gh.Continues()
    ensures r.Done? ==> Moving(gh, r.value, k, st) && gh.store.releases[r.value] == FreshPointer(st) && Recorded(gh, r.value, st)
    ensures VERSION_FILE !in Names(st.assets) ==>
              PointerReady(gh.store, st) && (r.Done? ==> Adoptable(gh.store, r.value, st))
    ensures r.Done? ==> Created(gh.store, r.value, st)
    ensures Rely(CliPublisher, old(gh.store), gh.store) || (Resolve(old(gh.store), CliLatest) == Missing && HasCreated(gh.store, st))
    ensures !r.Done? ==> r.Fault? && gh.faulty
  {
    hide PointerNotes; hide Advance; hide Consistent; hide SourceAt; hide Resolve; hide ValidProvenance; hide Rely; hide Adoptable;
    hide IsFound; hide Names; hide IsAbsent;
    hide Created; hide HasCreated;
    ghost var before := gh.store;
    gh.Interfere();
    AbsentStays(before, gh.store, k, st);
    var next := Appended(gh.store, FreshPointer(st));
    FreshStep(gh.store, k, st);
    if VERSION_FILE !in Names(st.assets) {
      FreshAdoptable(next, |gh.store.releases|, st);
      FoundPointer(next, |gh.store.releases|, st);
      NoPointer(gh.store, st);
    }
    var id := |gh.store.releases|;
    var _ :- gh.Send(next);
    return Done(id);
  }

  lemma AbsentStays(s: Store, s': Store, k: nat, st: Provenance)
    requires Rely(CliPublisher, s, s') && IsAbsent(s.releases, CliLatest) && SourceAt(s, k, st)
    ensures IsAbsent(s'.releases, CliLatest) && SourceAt(s', k, st)
    ensures Resolve(s', CliLatest) == Resolve(s, CliLatest)
    ensures forall p: nat :: !IsFound(s.releases, CliLatest, p)
  {
    SourceAtPersists(s, s', k, st);
    forall i | 0 <= i < |s'.releases| ensures s'.releases[i].tag != CliLatest {
      if i < |s.releases| {
        AdvanceAt(s, s', i);
      }
    }
  }

  /** Whenever an update moves the rolling tag, the pointer already has every asset recorded for that commit. */
  lemma TagBehindAssets(gh: GitHub, i: nat)
    requires gh.Valid() && gh.actor == CliPublisher && 0 < i < |gh.history| && CliLatest in gh.history[i].tags
    requires CliLatest in gh.history[i - 1].tags ==> gh.history[i - 1].tags[CliLatest] != gh.history[i].tags[CliLatest]
    ensures exists p: nat | p < |gh.history[i].releases| ::
              && IsFound(gh.history[i].releases, CliLatest, p)
              && var r := gh.history[i].releases[p];
              && |r.body.markers| == 1 && Exact(r.assets, r.body.markers[0].assets)
              && Resolve(gh.history[i], CliLatest) == Resolved(r.body.markers[0].sha)
  {
    hide Exact; hide Resolve; hide IsFound; hide Advance;
    assert TagFollows(gh.history[i - 1], gh.history[i - 1 + 1]);
  }

  // ---------- the operation ----------

  ghost predicate HasSource(s: Store, tag: Tag, sha: string) {
    exists k: nat, st: Provenance :: SourceAt(s, k, st) && st.tag == tag && st.sha == sha
  }

  /** Nothing stands in the way of serving `tag`: not a cut earlier run, and not a newer version. */
  ghost predicate UpdateReady(s: Store, tag: Tag, sha: string) {
    exists k: nat, st: Provenance :: SourceAt(s, k, st) && st.tag == tag && st.sha == sha && PointerReady(s, st)
  }

  /** The same, whatever files the release has. */
  ghost predicate TakesOver(s: Store, tag: Tag, sha: string) {
    exists k: nat, st: Provenance :: SourceAt(s, k, st) && st.tag == tag && st.sha == sha && TakeReady(s, st)
  }

  /** All that an update to `tag` may have done, wherever it was cut. */
  ghost predicate MovedTo(s: Store, s': Store, tag: Tag, sha: string) {
    || Rely(CliPublisher, s, s')
    || exists k: nat, st: Provenance :: SourceAt(s', k, st) && st.tag == tag && st.sha == sha && Moved(s, s', st)
  }

  /** The release is out, and nothing about the pointer stood in the way of moving it there. */
  ghost predicate VettedFor(s: Store, s': Store, tag: Tag, sha: string) {
    exists k: nat, st: Provenance :: SourceAt(s', k, st) && st.tag == tag && st.sha == sha && Vetted(s, s', st)
  }

  lemma SourceUnique(s: Store, k: nat, st: Provenance, k': nat, st': Provenance)
    requires SourceAt(s, k, st) && SourceAt(s, k', st') && st.tag == st'.tag
    ensures k == k' && st == st'
  {
    FoundUnique(s.releases, st.tag, k, k');
  }

  method ReadSource(gh: GitHub, tag: Tag, sha: string) returns (r: Outcome<(nat, Provenance, map<string, RemoteAsset>)>)
    requires gh.Valid() && gh.actor == CliPublisher && tag.Versioned? && tag.stream == Cli
    modifies gh`store, gh`history, gh`mine
    ensures gh.Continues() && Rely(CliPublisher, old(gh.store), gh.store)
    ensures r.Done? ==>
              var (k, st, assets) := r.value;
              SourceAt(gh.store, k, st) && st.tag == tag && st.sha == sha && Exact(assets, st.assets) && ValidProvenance(st)
    ensures HasSource(old(gh.store), tag, sha) ==> !r.Threw?
    ensures r.Fault? ==> gh.faulty
  {
    hide Advance; hide Consistent; hide Sole; hide PublishedAs; hide Rely; hide Exact; hide IsAbsent;
    ghost var s0 := gh.store;
    var tagged := AssertTag(gh, tag, sha);
    ghost var s1 := gh.store;
    SourceStays(s0, s1, tag, sha);
    var _ :- tagged;
    var found := ReleaseFor(gh, tag);
    ghost var s2 := gh.store;
    RelyTransitive(CliPublisher, s0, s1, s2);
    SourceStays(s1, s2, tag, sha);
    TagKept(s1, s2, tag);
    var existing :- found;
    if existing.None? {
      return Threw(NotPublished);
    }
    r := CheckSource(gh, tag, sha, existing.value);
    RelyTransitive(CliPublisher, s0, s2, gh.store);
  }

  lemma SourceStays(s: Store, s': Store, tag: Tag, sha: string)
    requires Rely(CliPublisher, s, s')
    ensures HasSource(s, tag, sha) ==>
              && HasSource(s', tag, sha) && !IsAbsent(s'.releases, tag)
              && Resolve(s, tag) == Resolved(sha) && ValidSha(sha)
              && exists k: nat :: IsFound(s'.releases, tag, k)
  {
    if HasSource(s, tag, sha) {
      var k: nat, st: Provenance :| SourceAt(s, k, st) && st.tag == tag && st.sha == sha;
      SourceAtPersists(s, s', k, st);
      SourceValid(s, k, st);
      assert IsFound(s'.releases, tag, k);
    }
  }

  method CheckSource(gh: GitHub, tag: Tag, sha: string, k: nat)
    returns (r: Outcome<(nat, Provenance, map<string, RemoteAsset>)>)
    requires gh.Valid() && gh.actor == CliPublisher && tag.Versioned? && tag.stream == Cli
    requires k < |gh.store.releases| && IsFound(gh.store.releases, tag, k) && Resolve(gh.store, tag) == Resolved(sha)
    modifies gh`store, gh`history, gh`mine
    ensures gh.Continues() && Rely(CliPublisher, old(gh.store), gh.store)
    ensures r.Done? ==>
              var (k', st, assets) := r.value;
              SourceAt(gh.store, k', st) && st.tag == tag && st.sha == sha && Exact(assets, st.assets) && ValidProvenance(st)
    ensures HasSource(old(gh.store), tag, sha) ==> !r.Threw?
    ensures r.Fault? ==> gh.faulty
  {
    hide Advance; hide Consistent; hide Rely; hide Exact;
    RelyReflexive(CliPublisher, gh.store);
    var source := gh.store.releases[k];
    if HasSource(gh.store, tag, sha) {
      var k0: nat, st0: Provenance :| SourceAt(gh.store, k0, st0) && st0.tag == tag && st0.sha == sha;
      FoundUnique(gh.store.releases, tag, k, k0);
    }
    if source.draft || !source.prerelease {
      return Threw(NotPublished);
    }
    if ReadState(source.body).None? {
      return Threw(NoProvenance);
    }
    var st := ReadState(source.body).value;
    RecordValid(source.body);
    if st.tag != tag || st.sha != sha {
      return Threw(ProvenanceConflict);
    }
    if st.phase != Complete {
      return Threw(IncompleteRelease);
    }
    ghost var before := gh.store;
    var verified := VerifiedAssets(gh, k, st.assets);
    SourceKept(before, gh.store, k, tag);
    var assets :- verified;
    return Done((k, st, assets));
  }

  lemma SourceKept(s: Store, s': Store, k: nat, tag: Tag)
    requires Rely(CliPublisher, s, s') && k < |s.releases| && IsFound(s.releases, tag, k)
    requires tag.Versioned? && tag.stream == Cli && Resolve(s, tag) != Missing
    ensures k < |s'.releases| && IsFound(s'.releases, tag, k) && s'.releases[k] == s.releases[k]
    ensures Resolve(s', tag) == Resolve(s, tag)
  {
    FoundPersists(s, s', tag, k);
  }

  method UpdateCliLatest(gh: GitHub, tag: Tag, sha: string) returns (r: Outcome<bool>)
    requires gh.Valid() && gh.actor == CliPublisher
    modifies gh`store, gh`history, gh`mine
    ensures gh.Continues()
    ensures r == Done(true) ==> Serves(gh.store, tag, sha)
    ensures r == Done(false) ==> Rely(CliPublisher, old(gh.store), gh.store) && Outdated(gh.store, tag)
    ensures Outdated(old(gh.store), tag) ==> Rely(CliPublisher, old(gh.store), gh.store) && r != Done(true)
    ensures Poisoned(old(gh.store)) ==> Rely(CliPublisher, old(gh.store), gh.store) && !r.Done?
    ensures UpdateReady(old(gh.store), tag, sha) ==>
              UpdateReady(gh.store, tag, sha) && !r.Threw? && (r.Done? ==> r.value)
    ensures MovedTo(old(gh.store), gh.store, tag, sha)
    ensures HasSource(gh.store, tag, sha) && Resolve(old(gh.store), tag) == Resolved(sha) ==> HasSource(old(gh.store), tag, sha)
    ensures !gh.faulty && TakesOver(old(gh.store), tag, sha) ==> AimsAt(gh.store, tag, sha)
    ensures HasSource(old(gh.store), tag, sha) && Declined(old(gh.store), tag) ==> r.Fault? || r == Done(false)
    ensures r.Done? ==> HasSource(gh.store, tag, sha)
    ensures VettedFor(old(gh.store), gh.store, tag, sha) || (Rely(CliPublisher, old(gh.store), gh.store) && r != Done(true))
    ensures Serves(old(gh.store), tag, sha) && HasSource(old(gh.store), tag, sha) ==>
              Rely(CliPublisher, old(gh.store), gh.store) && (r.Fault? || r == Done(true))
    ensures r.Fault? ==> gh.faulty
  {
    hide Advance; hide Consistent; hide IsFound; hide Rely; hide Exact; hide SourceAt; hide PointerReady; hide Resolve;
    hide Moved; hide TakeReady; hide AimsAt; hide Poisoned; hide Outdated; hide Serves; hide UpdateReady; hide TakesOver;
    hide HasSource; hide ValidProvenance; hide Declined; hide Vetted; hide VettedFor;
    if !(tag.Versioned? && tag.stream == Cli) {
      NotReady(gh.store, tag, sha);
      RelyReflexive(CliPublisher, gh.store);
      return Threw(InvalidTag);
    }
    ghost var s0 := gh.store;
    var read := ReadSource(gh, tag, sha);
    SourceBefore(s0, gh.store, tag, sha);
    ReadyStays(s0, gh.store, tag, sha);
    var source :- read;
    var (k, st, assets) := source;
    ghost var s1 := gh.store;
    SourceThere(s1, tag, sha, k, st);
    ReadyAt(gh.store, tag, sha, k, st);
    r := UpdateFrom(gh, k, st, assets);
    SourceThere(gh.store, tag, sha, k, st);
    ReadyAt(gh.store, tag, sha, k, st);
    QuietThenMoved(s0, s1, gh.store, st);
    QuietThenVetted(s0, s1, gh.store, st);
    VettedThere(s0, gh.store, tag, sha, k, st);
  }

  lemma SourceThere(s: Store, tag: Tag, sha: string, k: nat, st: Provenance)
    requires SourceAt(s, k, st) && st.tag == tag && st.sha == sha
    ensures HasSource(s, tag, sha)
  {
  }

  /** Under the publisher's lock no source appears by itself. */
  lemma SourceBefore(s: Store, s': Store, tag: Tag, sha: string)
    requires Rely(CliPublisher, s, s')
    ensures HasSource(s', tag, sha) && Resolve(s, tag) == Resolved(sha) ==> HasSource(s, tag, sha)
  {
    if HasSource(s', tag, sha) && Resolve(s, tag) == Resolved(sha) {
      var k: nat, st: Provenance :| SourceAt(s', k, st) && st.tag == tag && st.sha == sha;
      forall j | 0 <= j < |s.releases| ensures Later(s.releases[j], s'.releases[j]) {
        AdvanceAt(s, s', j);
      }
      assert k < |s.releases| && s.releases[k].tag == tag;
      forall j | 0 <= j < |s.releases| ensures PublishedAs(s.releases, tag, j) <==> PublishedAs(s'.releases, tag, j) {
      }
      assert s'.releases[k] == s.releases[k];
      assert IsFound(s.releases, tag, k);
      assert SourceAt(s, k, st);
    }
  }

  /** From a verified source on. */
  method UpdateFrom(gh: GitHub, k: nat, st: Provenance, assets: map<string, RemoteAsset>) returns (r: Outcome<bool>)
    requires gh.Valid() && gh.actor == CliPublisher && SourceAt(gh.store, k, st) && Exact(assets, st.assets)
    requires st.tag.Versioned? && st.tag.stream == Cli && ValidProvenance(st)
    modifies gh`store, gh`history, gh`mine
    ensures gh.Continues() && SourceAt(gh.store, k, st)
    ensures r == Done(true) ==> Serves(gh.store, st.tag, st.sha)
    ensures r == Done(false) ==> Rely(CliPublisher, old(gh.store), gh.store) && Outdated(gh.store, st.tag)
    ensures PointerReady(old(gh.store), st) ==> PointerReady(gh.store, st) && !r.Threw? && r != Done(false)
    ensures Moved(old(gh.store), gh.store, st)
    ensures Outdated(old(gh.store), st.tag) ==> Rely(CliPublisher, old(gh.store), gh.store) && r != Done(true)
    ensures Poisoned(old(gh.store)) ==> Rely(CliPublisher, old(gh.store), gh.store) && !r.Done?
    ensures !gh.faulty && TakeReady(old(gh.store), st) ==> AimsAt(gh.store, st.tag, st.sha)
    ensures Declined(old(gh.store), st.tag) ==> r.Fault? || r == Done(false)
    ensures Vetted(old(gh.store), gh.store, st) || (Rely(CliPublisher, old(gh.store), gh.store) && r != Done(true))
    ensures Serves(old(gh.store), st.tag, st.sha) ==>
              Rely(CliPublisher, old(gh.store), gh.store) && (r.Fault? || r == Done(true))
    ensures r.Fault? ==> gh.faulty
  {
    hide Advance; hide Consistent; hide IsFound; hide Rely; hide Exact; hide SourceAt; hide Resolve; hide TakeReady;
    hide AimsAt; hide Poisoned; hide Outdated; hide Serves; hide ValidProvenance; hide IsAbsent; hide Moved; hide Names; hide Declined; hide Vetted;
    ghost var s1 := gh.store;
    SomePointer(s1, st);
    var looked := ReleaseFor(gh, CliLatest);
    ghost var s2 := gh.store;
    SourceAtPersists(s1, s2, k, st);
    PointerQuiet(s1, s2, st);
    SomePointer(s2, st);
    RelyMoved(s1, s2, st);
    var existing :- looked;
    r := Serve(gh, k, st, assets, existing);
    QuietThenMoved(s1, s2, gh.store, st);
    QuietThenVetted(s1, s2, gh.store, st);
  }

  lemma RelyMoved(s: Store, s': Store, st: Provenance)
    requires st.tag.Versioned? && Rely(CliPublisher, s, s')
    ensures Advance(s, s') && Moved(s, s', st)
  {
  }

  lemma SomePointer(s: Store, st: Provenance)
    requires st.tag.Versioned?
    ensures TakeReady(s, st) || Outdated(s, st.tag) || Poisoned(s) || Declined(s, st.tag) || Serves(s, st.tag, st.sha) ==>
              IsAbsent(s.releases, CliLatest) || exists p: nat :: IsFound(s.releases, CliLatest, p)
  {
  }

  /** A strictly newer version is recorded for the pointer. */
  predicate Outdated(s: Store, tag: Tag) {
    && tag.Versioned?
    && exists p | 0 <= p < |s.releases| ::
         && IsFound(s.releases, CliLatest, p) && Surpassed(s.releases[p], tag.version)
  }

  /** A strictly newer version can be read off the pointer. */
  ghost predicate Declined(s: Store, tag: Tag) {
    tag.Versioned? && exists p: nat :: IsFound(s.releases, CliLatest, p) && Declines(s.releases[p], tag.version)
  }

  /** In a consistent store only an unreadable record, or a pointer off its channel, keeps an older tag from its answer. */
  lemma OutdatedIsDeclined(s: Store, tag: Tag, p: nat)
    requires Consistent(s) && IsFound(s.releases, CliLatest, p)
    ensures Declined(s, tag) <==> Outdated(s, tag) && !Poisoned(s) && s.releases[p].prerelease
  {
    hide Surpassed; hide Muddled;
    assert PointerSound(s, p);
    forall q: nat | IsFound(s.releases, CliLatest, q) ensures q == p {
      FoundUnique(s.releases, CliLatest, p, q);
    }
    if tag.Versioned? && Surpassed(s.releases[p], tag.version) && !Muddled(s.releases[p]) && s.releases[p].prerelease {
      assert Declines(s.releases[p], tag.version);
    }
  }

  lemma NotReady(s: Store, tag: Tag, sha: string)
    requires !(tag.Versioned? && tag.stream == Cli)
    ensures !UpdateReady(s, tag, sha) && !TakesOver(s, tag, sha) && !HasSource(s, tag, sha)
  {
  }

  lemma ReadyAt(s: Store, tag: Tag, sha: string, k: nat, st: Provenance)
    requires SourceAt(s, k, st) && st.tag == tag && st.sha == sha
    ensures st.tag.Versioned?
    ensures UpdateReady(s, tag, sha) <==> PointerReady(s, st)
    ensures TakesOver(s, tag, sha) <==> TakeReady(s, st)
  {
    hide TakeReady;
    if UpdateReady(s, tag, sha) {
      var k': nat, st': Provenance :| SourceAt(s, k', st') && st'.tag == tag && st'.sha == sha && PointerReady(s, st');
      SourceUnique(s, k, st, k', st');
    }
    if TakesOver(s, tag, sha) {
      var k': nat, st': Provenance :| SourceAt(s, k', st') && st'.tag == tag && st'.sha == sha && TakeReady(s, st');
      SourceUnique(s, k, st, k', st');
    }
  }

  lemma ReadyStays(s: Store, s': Store, tag: Tag, sha: string)
    requires Rely(CliPublisher, s, s')
    ensures UpdateReady(s, tag, sha) ==> UpdateReady(s', tag, sha) && HasSource(s, tag, sha)
    ensures TakesOver(s, tag, sha) ==> TakesOver(s', tag, sha) && HasSource(s, tag, sha)
    ensures Outdated(s, tag) ==> Outdated(s', tag)
    ensures Poisoned(s) ==> Poisoned(s')
    ensures Declined(s, tag) ==> Declined(s', tag)
    ensures Serves(s, tag, sha) ==> Serves(s', tag, sha)
    ensures HasSource(s, tag, sha) ==> HasSource(s', tag, sha)
  {
    hide TakeReady; hide Surpassed; hide Muddled; hide Declines;
    SourceStays(s, s', tag, sha);
    if TakesOver(s, tag, sha) {
      var k: nat, st: Provenance :| SourceAt(s, k, st) && st.tag == tag && st.sha == sha && TakeReady(s, st);
      SourceAtPersists(s, s', k, st);
      PointerQuiet(s, s', st);
      assert SourceAt(s', k, st) && TakeReady(s', st);
      if UpdateReady(s, tag, sha) {
        ReadyAt(s, tag, sha, k, st);
        ReadyAt(s', tag, sha, k, st);
      }
    }
    RelyKeepsPointer(CliPublisher, s, s');
    SameView(s, s');
  }

  lemma PointerQuiet(s: Store, s': Store, st: Provenance)
    requires Rely(CliPublisher, s, s') && st.tag.Versioned?
    ensures TakeReady(s, st) ==> TakeReady(s', st)
    ensures Outdated(s, st.tag) <==> Outdated(s', st.tag)
    ensures Poisoned(s) <==> Poisoned(s')
    ensures Declined(s, st.tag) <==> Declined(s', st.tag)
    ensures Serves(s, st.tag, st.sha) ==> Serves(s', st.tag, st.sha)
  {
    hide Surpassed; hide Muddled; hide Declines; hide Takeable; hide IsFound; hide IsAbsent; hide Resolve; hide PointerView; hide Consistent;
    RelyKeepsPointer(CliPublisher, s, s');
    SameView(s, s');
    if exists p: nat :: IsFound(s.releases, CliLatest, p) {
      var p: nat :| IsFound(s.releases, CliLatest, p);
      FoundPointer(s, p, st);
      FoundPointer(s', p, st);
      AdoptableQuietly(s, s', p, st);
    }
  }

  lemma QuietThenMoved(a: Store, b: Store, c: Store, st: Provenance)
    requires Rely(CliPublisher, a, b) && st.tag.Versioned? && Advance(a, b) && Moved(b, c, st)
    ensures Moved(a, c, st)
    ensures Rely(CliPublisher, b, c) ==> Rely(CliPublisher, a, c)
  {
    hide IsFound; hide IsAbsent; hide Resolve; hide PointerView; hide Consistent; hide HasCreated; hide Advance; hide Untouched;
    RelyKeepsPointer(CliPublisher, a, b);
    SameView(a, b);
    if Rely(CliPublisher, b, c) {
      RelyTransitive(CliPublisher, a, b, c);
    }
    forall p: nat | IsFound(b.releases, CliLatest, p) && p < |b.releases| && p < |c.releases| && Brought(b, c, p, st)
      ensures p < |a.releases| && Brought(a, c, p, st)
    {
      FoundPointer(a, p, st);
    }
  }

  method Serve(gh: GitHub, k: nat, st: Provenance, sourceAssets: map<string, RemoteAsset>, existing: Option<nat>)
    returns (r: Outcome<bool>)
    requires gh.Valid() && gh.actor == CliPublisher && SourceAt(gh.store, k, st) && Exact(sourceAssets, st.assets)
    requires st.tag.Versioned? && st.tag.stream == Cli && ValidProvenance(st)
    requires existing.Some? ==> IsFound(gh.store.releases, CliLatest, existing.value)
    requires existing.None? ==> IsAbsent(gh.store.releases, CliLatest)
    modifies gh`store, gh`history, gh`mine
    ensures gh.Continues() && SourceAt(gh.store, k, st)
    ensures r == Done(true) ==> Serves(gh.store, st.tag, st.sha)
    ensures r == Done(false) ==> Rely(CliPublisher, old(gh.store), gh.store) && Outdated(gh.store, st.tag)
    ensures PointerReady(old(gh.store), st) ==> PointerReady(gh.store, st) && !r.Threw? && r != Done(false)
    ensures Moved(old(gh.store), gh.store, st)
    ensures Outdated(old(gh.store), st.tag) ==> Rely(CliPublisher, old(gh.store), gh.store) && r != Done(true)
    ensures Poisoned(old(gh.store)) ==> Rely(CliPublisher, old(gh.store), gh.store) && !r.Done?
    ensures !gh.faulty && TakeReady(old(gh.store), st) ==> AimsAt(gh.store, st.tag, st.sha)
    ensures Declined(old(gh.store), st.tag) ==> r.Fault? || r == Done(false)
    ensures Vetted(old(gh.store), gh.store, st) || (Rely(CliPublisher, old(gh.store), gh.store) && r != Done(true))
    ensures Serves(old(gh.store), st.tag, st.sha) ==>
              Rely(CliPublisher, old(gh.store), gh.store) && (r.Fault? || r == Done(true))
    ensures r.Fault? ==> gh.faulty
  {
    hide PointerNotes; hide Advance; hide Consistent; hide Rely; hide Exact; hide SourceAt; hide Resolve; hide ValidProvenance;
    hide ServedBy; hide Adoptable; hide Takeable; hide Sole; hide PublishedAs; hide Recorded; hide Names; hide IsAbsent; hide IsFound;
    hide Brought; hide HasCreated; hide Created; hide TakeReady; hide Outdated; hide Poisoned; hide AimsAt; hide Surpassed; hide Muddled; hide Declined; hide Declines; hide Passes; hide Vetted; hide Serves;
    ghost var before := gh.store;
    if existing.Some? {
      var p := existing.value;
      FoundPointer(before, p, st);
      r := AdvancePointer(gh, p, k, st, sourceAssets);
      FoundPointer(gh.store, p, st);
      MovedFound(before, gh.store, p, st);
      VettedFound(before, gh.store, p, st);
    } else {
      NoPointer(before, st);
      r := ServeFirst(gh, k, st, sourceAssets);
      VettedAbsent(before, gh.store, st);
    }
  }

  lemma VettedFound(s: Store, s': Store, p: nat, st: Provenance)
    requires st.tag.Versioned? && p < |s.releases| && IsFound(s.releases, CliLatest, p)
    ensures Passes(s', s.releases[p], Resolve(s, CliLatest), st) ==> Vetted(s, s', st)
  {
  }

  lemma VettedAbsent(s: Store, s': Store, st: Provenance)
    requires st.tag.Versioned? && IsAbsent(s.releases, CliLatest)
    ensures Resolve(s, CliLatest) == Missing ==> Vetted(s, s', st)
  {
  }

  lemma VettedThere(s: Store, s': Store, tag: Tag, sha: string, k: nat, st: Provenance)
    requires SourceAt(s', k, st) && st.tag == tag && st.sha == sha
    ensures st.tag.Versioned? && (Vetted(s, s', st) ==> VettedFor(s, s', tag, sha))
  {
  }

  lemma QuietThenVetted(a: Store, b: Store, c: Store, st: Provenance)
    requires Rely(CliPublisher, a, b) && st.tag.Versioned? && Advance(a, b)
    ensures Vetted(b, c, st) ==> Vetted(a, c, st)
    ensures Rely(CliPublisher, b, c) ==> Rely(CliPublisher, a, c)
  {
    hide IsAbsent; hide Resolve; hide PointerView; hide Consistent; hide Advance; hide Untouched; hide Passes;
    RelyKeepsPointer(CliPublisher, a, b);
    SameView(a, b);
    if Rely(CliPublisher, b, c) {
      RelyTransitive(CliPublisher, a, b, c);
    }
  }

  method ServeFirst(gh: GitHub, k: nat, st: Provenance, sourceAssets: map<string, RemoteAsset>)
    returns (r: Outcome<bool>)
    requires gh.Valid() && gh.actor == CliPublisher && SourceAt(gh.store, k, st) && Exact(sourceAssets, st.assets)
    requires st.tag.Versioned? && st.tag.stream == Cli && ValidProvenance(st)
    requires IsAbsent(gh.store.releases, CliLatest)
    modifies gh`store, gh`history, gh`mine
    ensures gh.Continues() && SourceAt(gh.store, k, st)
    ensures r.Done? ==> r.value && Serves(gh.store, st.tag, st.sha)
    ensures PointerReady(old(gh.store), st) ==> PointerReady(gh.store, st) && !r.Threw?
    ensures Moved(old(gh.store), gh.store, st)
    ensures !gh.faulty && Resolve(old(gh.store), CliLatest) == Missing ==> AimsAt(gh.store, st.tag, st.sha)
    ensures Resolve(old(gh.store), CliLatest) == Missing || (Rely(CliPublisher, old(gh.store), gh.store) && !r.Done?)
    ensures r.Fault? ==> gh.faulty
  {
    hide PointerNotes; hide Advance; hide Consistent; hide Rely; hide Exact; hide SourceAt; hide Resolve; hide ValidProvenance;
    hide ServedBy; hide Adoptable; hide Takeable; hide Sole; hide PublishedAs; hide Recorded; hide Names; hide IsAbsent; hide IsFound;
    hide Brought; hide HasCreated; hide Created; hide TakeReady; hide AimsAt; hide Aims; hide Outdated; hide Poisoned;
    ghost var before := gh.store;
    var created := CreatePointer(gh, k, st);
    SourceAtPersists(before, gh.store, k, st);
    var p :- created;
    ghost var made := gh.store;
    var finished := FinishPointer(gh, p, k, st, sourceAssets);
    StillCreated(made, gh.store, p, st);
    FoundPointer(gh.store, p, st);
    var _ :- finished;
    r := Done(true);
  }

  lemma MovedFound(s: Store, s': Store, p: nat, st: Provenance)
    requires st.tag.Versioned? && IsFound(s.releases, CliLatest, p) && IsFound(s'.releases, CliLatest, p)
    requires Rely(CliPublisher, s, s') || (FloorAtMost(Floor(s.releases[p]), Some(st.tag.version)) && Brought(s, s', p, st))
    ensures Moved(s, s', st)
  {
  }

  lemma StillCreated(s: Store, s': Store, p: nat, st: Provenance)
    requires st.tag.Versioned? && p < |s.releases| && p < |s'.releases|
    requires Created(s, p, st) && Brought(s, s', p, st) && Aims(s'.releases[p], st) && IsFound(s'.releases, CliLatest, p)
    ensures HasCreated(s', st)
  {
    assert Created(s', p, st);
  }

  /** What is known of the pointer is known of the one found. */
  lemma FoundPointer(s: Store, p: nat, st: Provenance)
    requires st.tag.Versioned? && IsFound(s.releases, CliLatest, p)
    ensures TakeReady(s, st) <==> Takeable(s, p, st)
    ensures Outdated(s, st.tag) <==> Surpassed(s.releases[p], st.tag.version)
    ensures Poisoned(s) <==> Muddled(s.releases[p])
    ensures Declined(s, st.tag) <==> Declines(s.releases[p], st.tag.version)
    ensures p < |s.releases| && s.releases[p].tag == CliLatest
    ensures Aims(s.releases[p], st) ==> AimsAt(s, st.tag, st.sha)
    ensures PointerReady(s, st) <==> Adoptable(s, p, st)
    ensures ServedBy(s.releases[p], st.tag, st.sha) && Resolve(s, CliLatest) == Resolved(st.sha) <==> Serves(s, st.tag, st.sha)
  {
    hide Takeable; hide Surpassed; hide Muddled; hide Declines;
    forall q: nat | IsFound(s.releases, CliLatest, q) ensures q == p {
      FoundUnique(s.releases, CliLatest, p, q);
    }
  }

  lemma NoPointer(s: Store, st: Provenance)
    requires st.tag.Versioned? && IsAbsent(s.releases, CliLatest)
    ensures TakeReady(s, st) <==> Resolve(s, CliLatest) == Missing
    ensures !Outdated(s, st.tag) && !Poisoned(s) && !Declined(s, st.tag) && !Serves(s, st.tag, st.sha)
  {
  }

  /** In a consistent store, what is served for a tag is its release's assets and the manifest naming its version. */
  lemma ServedInventory(s: Store, tag: Tag, sha: string, k: nat, st: Provenance, p: nat)
    requires Consistent(s) && SourceAt(s, k, st) && st.tag == tag
    requires IsFound(s.releases, CliLatest, p) && ServedBy(s.releases[p], tag, sha)
    ensures sha == st.sha && Exact(s.releases[p].assets, st.assets + [Manifest(tag.version)])
    ensures VERSION_FILE !in Names(st.assets)
  {
    assert PointerSound(s, p);
    SoundInventory(s, p, k, st);
    SourceValid(s, k, st);
    PointerNames(st);
  }

  /** A CLI release that itself has a `version.txt` can never be served. */
  lemma OwnVersionFileNeverServed(s: Store, tag: Tag, sha: string, k: nat, st: Provenance)
    requires Consistent(s) && SourceAt(s, k, st) && st.tag == tag && VERSION_FILE in Names(st.assets)
    ensures !Serves(s, tag, sha)
  {
    if Serves(s, tag, sha) {
      var p :| 0 <= p < |s.releases| && IsFound(s.releases, CliLatest, p) && ServedBy(s.releases[p], tag, sha);
      ServedInventory(s, tag, sha, k, st, p);
      assert false;
    }
  }
}
