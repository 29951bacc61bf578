/** Publishing a versioned release so that any interrupted run can simply be repeated. */
module ReleasePublish {
  import opened Wrappers
  import opened ReleaseStore
  import opened ReleaseSteps
  import opened ReleaseClient

  datatype PublishOptions = PublishOptions(
    stream: Stream, tag: Tag, sha: string, assets: seq<AssetSpec>, notes: Option<string>)

  function PublisherOf(stream: Stream): Actor {
    match stream case Cli => CliPublisher case Desktop => DesktopPublisher
  }

  function PlannedNotes(o: PublishOptions, changelog: Tag -> string): string {
    if o.notes.Some? then o.notes.value else changelog(o.tag)
  }

  function Record(o: PublishOptions, phase: Phase): Provenance {
    Provenance(o.tag, o.sha, phase, o.assets)
  }

  predicate Publishable(o: PublishOptions) {
    o.tag.Versioned? && o.tag.stream == o.stream && ValidProvenance(Record(o, Pending))
  }

  /** An inventory that is taken but makes no valid record, as one with an empty or a nameless file. */
  predicate Unpublishable(o: PublishOptions) {
    && o.tag.Versioned? && o.tag.stream == o.stream && ValidSha(o.sha)
    && o.assets != [] && UniqueNames(o.assets) && !ValidProvenance(Record(o, Pending))
  }

  /** The record of a release is this build's, with the same asset names, and the release is on the right channel. */
  predicate Accepts(o: PublishOptions, r: Release) {
    && ReadState(r.body).Some?
    && var st := ReadState(r.body).value;
    && st.tag == o.tag && st.sha == o.sha && Names(st.assets) == Names(o.assets)
    && r.prerelease == (o.stream == Cli)
  }

  /** Each asset present is a recorded one, and is either whole or the stub of a failed upload. */
  predicate PartialOf(assets: map<string, RemoteAsset>, specs: seq<AssetSpec>) {
    && assets.Keys <= Names(specs)
    && forall i | 0 <= i < |specs| && specs[i].name in assets ::
         assets[specs[i].name].state == Starter || Matches(assets[specs[i].name], specs[i])
  }

  /** `r` is what some number of cut runs with these options may leave. */
  predicate Resumes(r: Release, o: PublishOptions, notes: string) {
    && r.tag == o.tag && r.prerelease == (o.stream == Cli) && r.body.notes == notes && (o.stream == Desktop ==> r.draft)
    && |r.body.markers| == 1 && r.body.markers[0] == Record(o, r.body.markers[0].phase)
    && PartialOf(r.assets, o.assets)
    && (r.body.markers[0].phase == Complete ==> Exact(r.assets, o.assets))
  }

  predicate Resumable(s: Store, o: PublishOptions, notes: string) {
    && Publishable(o)
    && Resolve(s, o.tag) == Resolved(o.sha)
    && (IsAbsent(s.releases, o.tag) ||
        exists i | 0 <= i < |s.releases| :: IsFound(s.releases, o.tag, i) && Resumes(s.releases[i], o, notes))
  }

  /** A release whose recorded inventory is exactly what it holds, and which users of its stream get. */
  predicate Fulfilled(r: Release, stream: Stream, tag: Tag, sha: string) {
    && r.tag == tag && r.prerelease == (stream == Cli) && (stream == Cli ==> !r.draft)
    && ReadState(r.body).Some?
    && var st := ReadState(r.body).value;
    && st.tag == tag && st.sha == sha && st.phase == Complete && Exact(r.assets, st.assets)
  }

  /** The release found for `tag` has no record that can be read. */
  predicate Unreadable(s: Store, tag: Tag) {
    exists i | 0 <= i < |s.releases| :: IsFound(s.releases, tag, i) && ReadState(s.releases[i].body).None?
  }

  /** One empty or nameless file makes an inventory unpublishable; any other is published. */
  lemma PublishableIff(o: PublishOptions)
    requires WellFormed(o) && ValidSha(o.sha)
    ensures Publishable(o) <==> forall i | 0 <= i < |o.assets| :: o.assets[i].size > 0 && o.assets[i].name != ""
    ensures Unpublishable(o) <==> exists i | 0 <= i < |o.assets| :: o.assets[i].size == 0 || o.assets[i].name == ""
  {
  }

  /** No step of anybody mends an unreadable record. */
  lemma UnreadablePersists(s: Store, s': Store, tag: Tag)
    requires Advance(s, s') && tag.Versioned? && Unreadable(s, tag)
    ensures Unreadable(s', tag)
  {
    var i :| 0 <= i < |s.releases| && IsFound(s.releases, tag, i) && ReadState(s.releases[i].body).None?;
    FoundPersists(s, s', tag, i);
    AdvanceAt(s, s', i);
    assert ReadState(s'.releases[i].body).None?;
  }

  // ---------- the release an undisturbed run ends in ----------

  function Inventory(specs: seq<AssetSpec>): map<string, RemoteAsset> {
    if specs == [] then map[]
    else
      var last := specs[|specs| - 1];
      Inventory(specs[..|specs| - 1])[last.name := RemoteAsset(Uploaded, last.size, last.digest)]
  }

  /** A desktop release is left a draft, for a person to publish. */
  function FinalRelease(o: PublishOptions, notes: string): Release {
    Release(o.tag, Body(notes, [Record(o, Complete)]), o.stream == Desktop, o.stream == Cli, Inventory(o.assets))
  }

  lemma {:induction false} InventoryExact(specs: seq<AssetSpec>)
    requires UniqueNames(specs)
    ensures Exact(Inventory(specs), specs)
  {
    if specs != [] {
      var last := |specs| - 1;
      InventoryExact(specs[..last]);
      assert Names(specs) == Names(specs[..last]) + {specs[last].name};
      forall i | 0 <= i < |specs| ensures Holds(Inventory(specs), specs[i]) {
        assert i < last ==> Holds(Inventory(specs[..last]), specs[..last][i]);
      }
    }
  }

  /** An inventory leaves no freedom: the assets are the same whichever path led there. */
  lemma ExactUnique(a: map<string, RemoteAsset>, b: map<string, RemoteAsset>, specs: seq<AssetSpec>)
    requires Exact(a, specs) && Exact(b, specs)
    ensures a == b
  {
    forall n | n in a ensures a[n] == b[n] {
      assert n in Names(specs);
      var i :| 0 <= i < |specs| && specs[i].name == n;
      assert Holds(a, specs[i]) && Holds(b, specs[i]);
    }
  }

  // ---------- requests on the release ----------

  ghost predicate Mine(gh: GitHub, tag: Tag, id: nat)
    reads gh
  {
    && gh.Valid() && tag.Versioned? && Owns(gh.actor, tag)
    && id < |gh.store.releases| && gh.store.releases[id].tag == tag && IsFound(gh.store.releases, tag, id)
  }

  /** Publishing a versioned release leaves the rolling pointer alone. */
  twostate predicate PointerKept(gh: GitHub)
    reads gh
  {
    gh.actor == CliPublisher ==> PointerView(gh.store) == PointerView(old(gh.store))
  }

  /** A read during which, under the publisher's lock, its own release does not change. */
  method Ask(gh: GitHub, tag: Tag, id: nat) returns (r: Outcome<Unit>)
    requires Mine(gh, tag, id)
    modifies gh`store, gh`history, gh`mine
    ensures gh.Continues() && Mine(gh, tag, id)
    ensures PointerKept(gh)
    ensures gh.store.releases[id] == old(gh.store).releases[id]
    ensures !r.Done? ==> r.Fault? && gh.faulty
  {
    hide PointerView; hide Advance; hide Consistent;
    r := gh.Read();
    RelyKeepsPointer(gh.actor, old(gh.store), gh.store);
    FoundPersists(old(gh.store), gh.store, tag, id);
  }

  method PutRelease(gh: GitHub, id: nat, next: Release) returns (r: Outcome<Unit>)
    requires Mine(gh, next.tag, id) && Later(gh.store.releases[id], next)
    requires Honest(gh.store.releases[id]) ==> Honest(next)
    modifies gh`store, gh`history, gh`mine
    ensures gh.Continues() && Mine(gh, next.tag, id)
    ensures PointerKept(gh)
    ensures r.Done? ==> gh.store.releases[id] == next
    ensures !r.Done? ==> r.Fault? && gh.faulty
    ensures gh.store.releases[id] in {old(gh.store).releases[id], next}
  {
    hide PointerView; hide Advance; hide Consistent; hide Later;
    gh.Interfere();
    RelyKeepsPointer(gh.actor, old(gh.store), gh.store);
    FoundPersists(old(gh.store), gh.store, next.tag, id);
    VersionedKeepsPointer(gh.store, id, next);
    ghost var before := gh.store;
    ReplaceVersioned(gh.actor, gh.store, id, next);
    assert Rely(Lockstep, gh.store, Replaced(gh.store, id, next));
    FoundPersists(gh.store, Replaced(gh.store, id, next), next.tag, id);
    r := gh.Send(Replaced(gh.store, id, next));
  }

  /** A failed upload leaves nothing, a stub or the whole asset. */
  method Upload(gh: GitHub, tag: Tag, id: nat, spec: AssetSpec) returns (r: Outcome<Unit>)
    requires Mine(gh, tag, id)
    requires |gh.store.releases[id].body.markers| == 1 && spec.name in Names(gh.store.releases[id].body.markers[0].assets)
    modifies gh`store, gh`history, gh`mine
    ensures gh.Continues() && Mine(gh, tag, id)
    ensures PointerKept(gh)
    ensures var was, now := old(gh.store).releases[id], gh.store.releases[id];
            var whole := RemoteAsset(Uploaded, spec.size, spec.digest);
            && now in {was, was.(assets := was.assets[spec.name := STUB]), was.(assets := was.assets[spec.name := whole])}
            && (r.Done? ==> now == was.(assets := was.assets[spec.name := whole]))
            && (r.Threw? ==> spec.name in was.assets)
            && (spec.name in was.assets ==> now == was)
    ensures r.Fault? ==> gh.faulty
  {
    var was := gh.store.releases[id];
    if spec.name in was.assets {
      return Threw(AlreadyExists);
    }
    var stub := was.(assets := was.assets[spec.name := STUB]);
    var whole := was.(assets := was.assets[spec.name := RemoteAsset(Uploaded, spec.size, spec.digest)]);
    if gh.faulty {
      if * {
        var _ := PutRelease(gh, id, stub);
        return Fault;
      }
    }
    r := PutRelease(gh, id, whole);
  }

  method Discard(gh: GitHub, tag: Tag, id: nat, name: string) returns (r: Outcome<Unit>)
    requires Mine(gh, tag, id)
    requires |gh.store.releases[id].body.markers| == 1
    requires name in gh.store.releases[id].assets && gh.store.releases[id].assets[name].state != Uploaded
    modifies gh`store, gh`history, gh`mine
    ensures gh.Continues() && Mine(gh, tag, id)
    ensures PointerKept(gh)
    ensures var was, now := old(gh.store).releases[id], gh.store.releases[id];
            && now in {was, was.(assets := was.assets - {name})}
            && (r.Done? ==> now == was.(assets := was.assets - {name}))
    ensures !r.Done? ==> r.Fault? && gh.faulty
  {
    var was := gh.store.releases[id];
    r := PutRelease(gh, id, was.(assets := was.assets - {name}));
  }

  /** Every asset that is new or changed is one of these files, whole, or the stub of one that failed. */
  predicate OwnUploads(was: map<string, RemoteAsset>, now: map<string, RemoteAsset>, files: seq<AssetSpec>) {
    forall n | n in now && (n !in was || now[n] != was[n]) ::
      now[n] == STUB || exists i | 0 <= i < |files| :: files[i].name == n && now[n] == RemoteAsset(Uploaded, files[i].size, files[i].digest)
  }

  lemma OwnUploadsThen(a: map<string, RemoteAsset>, b: map<string, RemoteAsset>, c: map<string, RemoteAsset>, files: seq<AssetSpec>)
    requires OwnUploads(a, b, files) && OwnUploads(b, c, files)
    ensures OwnUploads(a, c, files)
  {
  }

  lemma OneUpload(was: map<string, RemoteAsset>, now: map<string, RemoteAsset>, name: string, files: seq<AssetSpec>)
    requires now - {name} == was - {name}
    requires now == was || name !in now || now[name] == STUB
               || exists i | 0 <= i < |files| :: files[i].name == name && Matches(now[name], files[i])
    ensures OwnUploads(was, now, files)
  {
    forall n | n in now && n != name ensures n in was && was[n] == now[n] {
      assert n in now - {name} && (now - {name})[n] == now[n];
    }
  }

  function AssetsAt(s: Store, i: nat): map<string, RemoteAsset> {
    if i < |s.releases| then s.releases[i].assets else map[]
  }

  /** Of the tag's release nothing changed but by uploads of these files. */
  ghost predicate OnlyOwnUploads(s: Store, s': Store, tag: Tag, files: seq<AssetSpec>) {
    forall i: nat | i < |s'.releases| && IsFound(s'.releases, tag, i) :: OwnUploads(AssetsAt(s, i), s'.releases[i].assets, files)
  }

  /** Looking a release up, or making its draft, uploads nothing. */
  lemma LookedUpOnly(actor: Actor, s: Store, s': Store, tag: Tag, files: seq<AssetSpec>)
    requires Advance(s, s') && Owns(actor, tag) && tag.Versioned?
    requires Rely(actor, s, s') || (IsAbsent(s.releases, tag)
               && forall i: nat | i < |s'.releases| && IsFound(s'.releases, tag, i) :: s'.releases[i].assets == map[])
    ensures OnlyOwnUploads(s, s', tag, files)
  {
    hide Consistent; hide Sole; hide PublishedAs;
    forall i: nat | i < |s'.releases| && IsFound(s'.releases, tag, i) ensures OwnUploads(AssetsAt(s, i), s'.releases[i].assets, files) {
      if i < |s.releases| {
        AdvanceAt(s, s', i);
      }
    }
  }

  lemma FinishedOnly(s: Store, b: Store, s': Store, tag: Tag, id: nat, files: seq<AssetSpec>)
    requires OnlyOwnUploads(s, b, tag, files) && IsFound(b.releases, tag, id) && IsFound(s'.releases, tag, id)
    requires id < |b.releases| && id < |s'.releases| && OwnUploads(b.releases[id].assets, s'.releases[id].assets, files)
    ensures OnlyOwnUploads(s, s', tag, files)
  {
    hide OwnUploads;
    OwnUploadsThen(AssetsAt(s, id), b.releases[id].assets, s'.releases[id].assets, files);
    forall i: nat | i < |s'.releases| && IsFound(s'.releases, tag, i) ensures i == id {
      FoundUnique(s'.releases, tag, i, id);
    }
  }

  // ---------- the operation ----------

  function FindSpec(specs: seq<AssetSpec>, name: string): Option<AssetSpec> {
    if specs == [] then None
    else if specs[0].name == name then Some(specs[0])
    else FindSpec(specs[1..], name)
  }

  lemma {:induction false} FindSpecUnique(specs: seq<AssetSpec>, i: nat)
    requires UniqueNames(specs) && i < |specs|
    ensures FindSpec(specs, specs[i].name) == Some(specs[i])
  {
    if i > 0 {
      assert specs[0].name != specs[i].name;
      FindSpecUnique(specs[1..], i - 1);
    }
  }

  lemma {:induction false} FindSpecThere(specs: seq<AssetSpec>, name: string)
    ensures FindSpec(specs, name).Some? ==>
              FindSpec(specs, name).value.name == name && exists i | 0 <= i < |specs| :: specs[i] == FindSpec(specs, name).value
  {
    if specs != [] && specs[0].name != name {
      FindSpecThere(specs[1..], name);
      if FindSpec(specs, name).Some? {
        var i :| 0 <= i < |specs| - 1 && specs[1..][i] == FindSpec(specs, name).value;
        assert specs[i + 1] == FindSpec(specs, name).value;
      }
    } else if specs != [] {
      assert specs[0] == FindSpec(specs, name).value;
    }
  }

  lemma AbsentPersists(actor: Actor, s: Store, s': Store, tag: Tag)
    requires Rely(actor, s, s') && Owns(actor, tag) && IsAbsent(s.releases, tag)
    ensures IsAbsent(s'.releases, tag)
  {
    forall i | 0 <= i < |s'.releases| ensures s'.releases[i].tag != tag {
      if i < |s.releases| {
        AdvanceAt(s, s', i);
      }
    }
  }

  method CreateDraft(gh: GitHub, o: PublishOptions) returns (r: Outcome<nat>)
    requires gh.Valid() && Owns(gh.actor, o.tag) && o.tag.Versioned? && IsAbsent(gh.store.releases, o.tag)
    modifies gh`store, gh`history, gh`mine
    ensures gh.Continues()
    ensures PointerKept(gh)
    ensures var notes := PlannedNotes(o, gh.changelog);
            var draft := Release(o.tag, Body(notes, [Record(o, Pending)]), true, o.stream == Cli, map[]);
            && (r.Done? ==> Mine(gh, o.tag, r.value) && gh.store.releases[r.value] == draft)
            && (r.Done? || IsAbsent(gh.store.releases, o.tag) ||
                exists i | 0 <= i < |gh.store.releases| :: IsFound(gh.store.releases, o.tag, i) && gh.store.releases[i] == draft)
    ensures !r.Done? ==> r.Fault? && gh.faulty
  {
    hide PointerView; hide Advance; hide Consistent;
    if o.notes.None? {
      var read := gh.Read();
      RelyKeepsPointer(gh.actor, old(gh.store), gh.store);
      AbsentPersists(gh.actor, old(gh.store), gh.store, o.tag);
      var _ :- read;
    }
    ghost var before := gh.store;
    gh.Interfere();
    RelyKeepsPointer(gh.actor, before, gh.store);
    AbsentPersists(gh.actor, before, gh.store, o.tag);
    var draft := Release(o.tag, Body(PlannedNotes(o, gh.changelog), [Record(o, Pending)]), true, o.stream == Cli, map[]);
    var id := |gh.store.releases|;
    VersionedKeepsPointer(gh.store, id, draft);
    AppendVersioned(gh.actor, gh.store, draft);
    assert IsFound(Appended(gh.store, draft).releases, o.tag, id);
    var _ :- gh.Send(Appended(gh.store, draft));
    return Done(id);
  }

  /** Fills in the recorded assets that are missing; never touches whole ones. */
  method UploadMissing(gh: GitHub, o: PublishOptions, id: nat, st: Provenance) returns (r: Outcome<Unit>)
    requires Mine(gh, o.tag, id) && UniqueNames(o.assets)
    requires gh.store.releases[id].body.markers == [st] && UniqueNames(st.assets)
    modifies gh`store, gh`history, gh`mine
    ensures gh.Continues() && Mine(gh, o.tag, id)
    ensures PointerKept(gh)
    ensures var was, now := old(gh.store).releases[id], gh.store.releases[id];
            && now == was.(assets := now.assets)
            && (r.Done? ==> forall i | 0 <= i < |st.assets| :: Holds(now.assets, st.assets[i]))
            && (PartialOf(was.assets, st.assets) ==> PartialOf(now.assets, st.assets))
            && (PartialOf(was.assets, st.assets) && st.assets == o.assets ==> !r.Threw?)
            && (Exact(was.assets, st.assets) ==> now == was && !r.Threw?)
    ensures OwnUploads(old(gh.store).releases[id].assets, gh.store.releases[id].assets, o.assets)
    ensures r.Fault? ==> gh.faulty
  {
    hide PointerView; hide Advance; hide Consistent;
    var _ :- Ask(gh, o.tag, id);
    var release := gh.store.releases[id];
    var remote := release.assets;
    var i := 0;
    while i < |st.assets|
      invariant 0 <= i <= |st.assets|
      invariant gh.Continues() && Mine(gh, o.tag, id) && PointerKept(gh)
      invariant gh.store.releases[id] == release.(assets := gh.store.releases[id].assets)
      invariant forall j | 0 <= j < i :: Holds(gh.store.releases[id].assets, st.assets[j])
      invariant forall j | i <= j < |st.assets| :: SameAt(gh.store.releases[id].assets, remote, st.assets[j].name)
      invariant OwnUploads(remote, gh.store.releases[id].assets, o.assets)
      invariant Exact(remote, st.assets) ==> gh.store.releases[id].assets == remote
      invariant PartialOf(remote, st.assets) ==> PartialOf(gh.store.releases[id].assets, st.assets)
    {
      ghost var before := gh.store.releases[id].assets;
      var filled := FillOne(gh, o, id, st, i, remote);
      OwnUploadsThen(remote, before, gh.store.releases[id].assets, o.assets);
      FillKeeps(before, gh.store.releases[id].assets, st.assets, i);
      var _ :- filled;
      i := i + 1;
    }
    return Done(Unit.Unit);
  }

  lemma FillKeeps(was: map<string, RemoteAsset>, now: map<string, RemoteAsset>, specs: seq<AssetSpec>, i: nat)
    requires i < |specs| && UniqueNames(specs)
    requires now - {specs[i].name} == was - {specs[i].name}
    requires now == was || specs[i].name !in now || now[specs[i].name] == STUB || Matches(now[specs[i].name], specs[i])
    ensures PartialOf(was, specs) ==> PartialOf(now, specs)
    ensures forall j | 0 <= j < |specs| && j != i :: SameAt(now, was, specs[j].name)
  {
    var name := specs[i].name;
    forall j | 0 <= j < |specs| && j != i ensures SameAt(now, was, specs[j].name) {
      assert specs[j].name != name;
      assert specs[j].name in now <==> specs[j].name in now - {name};
      assert specs[j].name in was <==> specs[j].name in was - {name};
      assert specs[j].name in now ==> now[specs[j].name] == (now - {name})[specs[j].name];
      assert specs[j].name in was ==> was[specs[j].name] == (was - {name})[specs[j].name];
    }
    if PartialOf(was, specs) {
      forall n | n in now ensures n in Names(specs) {
        assert n == name || n in now - {name};
      }
    }
  }

  method FillOne(gh: GitHub, o: PublishOptions, id: nat, st: Provenance, i: nat, remote: map<string, RemoteAsset>)
    returns (r: Outcome<Unit>)
    requires Mine(gh, o.tag, id) && UniqueNames(o.assets) && i < |st.assets| && UniqueNames(st.assets)
    requires gh.store.releases[id].body.markers == [st]
    requires SameAt(gh.store.releases[id].assets, remote, st.assets[i].name)
    modifies gh`store, gh`history, gh`mine
    ensures gh.Continues() && Mine(gh, o.tag, id)
    ensures PointerKept(gh)
    ensures var was, now := old(gh.store).releases[id], gh.store.releases[id];
            var name := st.assets[i].name;
            && now == was.(assets := now.assets)
            && now.assets - {name} == was.assets - {name}
            && (r.Done? ==> Holds(now.assets, st.assets[i]))
            && (Holds(was.assets, st.assets[i]) ==> now == was && !r.Threw?)
            && (now == was || name !in now.assets || now.assets[name] == STUB || Matches(now.assets[name], st.assets[i]))
            && (r.Threw? && st.assets == o.assets ==> name in was.assets && was.assets[name].state != Starter && !Holds(was.assets, st.assets[i]))
    ensures OwnUploads(old(gh.store).releases[id].assets, gh.store.releases[id].assets, o.assets)
    ensures r.Fault? ==> gh.faulty
  {
    hide PointerView; hide Advance; hide Consistent;
    var expected := st.assets[i];
    var name := expected.name;
    if name in remote {
      var _ :- Ask(gh, o.tag, id);
      if Matches(remote[name], expected) {
        return Done(Unit.Unit);
      }
      if remote[name].state != Starter {
        return Threw(AssetConflict);
      }
    }
    var local := FindSpec(o.assets, name);
    if st.assets == o.assets {
      FindSpecUnique(o.assets, i);
    }
    if local != Some(expected) {
      return Threw(OriginalRequired);
    }
    FindSpecThere(o.assets, name);
    ghost var before := gh.store.releases[id].assets;
    var uploaded := UploadOver(gh, o.tag, id, expected);
    OneUpload(before, gh.store.releases[id].assets, name, o.assets);
    return uploaded;
  }

  /** Uploads an asset in place of the stub a failed upload may have left. */
  method UploadOver(gh: GitHub, tag: Tag, id: nat, spec: AssetSpec) returns (r: Outcome<Unit>)
    requires Mine(gh, tag, id)
    requires |gh.store.releases[id].body.markers| == 1 && spec.name in Names(gh.store.releases[id].body.markers[0].assets)
    requires spec.name in gh.store.releases[id].assets ==> gh.store.releases[id].assets[spec.name].state == Starter
    modifies gh`store, gh`history, gh`mine
    ensures gh.Continues() && Mine(gh, tag, id)
    ensures PointerKept(gh)
    ensures var was, now := old(gh.store).releases[id], gh.store.releases[id];
            && now == was.(assets := now.assets)
            && now.assets - {spec.name} == was.assets - {spec.name}
            && (r.Done? ==> Holds(now.assets, spec))
            && (now == was || spec.name !in now.assets || now.assets[spec.name] == STUB || Matches(now.assets[spec.name], spec))
    ensures !r.Done? ==> r.Fault? && gh.faulty
  {
    hide PointerView; hide Advance; hide Consistent; hide IsFound; hide Later;
    if spec.name in gh.store.releases[id].assets {
      var _ :- Discard(gh, tag, id, spec.name);
    }
    r := Upload(gh, tag, id, spec);
  }

  /** The record, the channel and the inventory of an existing release must be this build's. */
  function CheckRelease(o: PublishOptions, release: Release): (r: Outcome<Provenance>)
    ensures !r.Fault?
  {
    var state := ReadState(release.body);
    if state.None? then Threw(NoProvenance)
    else if state.value.tag != o.tag || state.value.sha != o.sha then Threw(ProvenanceConflict)
    else if release.prerelease != (o.stream == Cli) then Threw(WrongChannel)
    else if |o.assets| != |state.value.assets| || !(Names(o.assets) <= Names(state.value.assets)) then
      Threw(InventoryChanged)
    else Done(state.value)
  }

  lemma Checked(o: PublishOptions, release: Release)
    requires CheckRelease(o, release).Done?
    ensures var st := CheckRelease(o, release).value;
            && release.body.markers == [st] && UniqueNames(st.assets) && ValidProvenance(st)
            && st.tag == o.tag && st.sha == o.sha && release.prerelease == (o.stream == Cli)
  {
  }

  /** A release is accepted exactly when its record is this build's, with the same asset names. */
  lemma AcceptedIff(o: PublishOptions, release: Release)
    requires UniqueNames(o.assets)
    ensures CheckRelease(o, release).Done? <==> Accepts(o, release)
  {
    hide Names; hide UniqueNames;
    if ReadState(release.body).Some? {
      var st := ReadState(release.body).value;
      assert UniqueNames(st.assets);
      NameCount(o.assets);
      NameCount(st.assets);
      if Names(o.assets) <= Names(st.assets) && |o.assets| == |st.assets| {
        SubsetOfSameSize(Names(o.assets), Names(st.assets));
      }
    }
  }

  lemma CheckReads(o: PublishOptions, s: Store, id: nat, notes: string)
    requires IsFound(s.releases, o.tag, id)
    ensures Unreadable(s, o.tag) ==> CheckRelease(o, s.releases[id]).Threw?
    ensures Unpublishable(o) && s.releases[id] == Draft(o, notes) ==> CheckRelease(o, s.releases[id]).Threw? && Unreadable(s, o.tag)
  {
    if Unreadable(s, o.tag) {
      var i :| 0 <= i < |s.releases| && IsFound(s.releases, o.tag, i) && ReadState(s.releases[i].body).None?;
      FoundUnique(s.releases, o.tag, i, id);
    }
  }

  lemma ResumesChecked(o: PublishOptions, release: Release, notes: string)
    requires Publishable(o) && Resumes(release, o, notes)
    ensures CheckRelease(o, release) == Done(Record(o, release.body.markers[0].phase))
  {
  }

  /** A release with the checked record of this build, at any stage of filling it in. */
  predicate Stage(r: Release, o: PublishOptions, st: Provenance) {
    && r.tag == o.tag && r.prerelease == (o.stream == Cli)
    && r.body.markers == [st] && ValidProvenance(st) && st.tag == o.tag && st.sha == o.sha
  }

  lemma FulfilledExact(r: Release, stream: Stream, tag: Tag, sha: string)
    ensures Fulfilled(r, stream, tag, sha) ==> |r.body.markers| == 1 && Exact(r.assets, r.body.markers[0].assets)
  {
  }

  lemma StageFilled(was: Release, now: Release, o: PublishOptions, st: Provenance, notes: string)
    requires Stage(was, o, st) && now == was.(assets := now.assets)
    requires PartialOf(was.assets, st.assets) ==> PartialOf(now.assets, st.assets)
    requires Exact(was.assets, st.assets) ==> now == was
    ensures Stage(now, o, st)
    ensures Resumes(was, o, notes) ==> Resumes(now, o, notes)
    ensures Resumes(was, o, notes) ==> PartialOf(was.assets, st.assets) && st.assets == o.assets
  {
  }

  lemma StageCompleted(was: Release, now: Release, o: PublishOptions, st: Provenance, notes: string)
    requires Stage(was, o, st) && Exact(was.assets, st.assets)
    requires now == was.(body := Body(was.body.notes, [st.(phase := Complete)]),
                         draft := if o.stream == Cli then false else was.draft)
    ensures Fulfilled(now, o.stream, o.tag, o.sha)
    ensures Resumes(was, o, notes) ==> Resumes(now, o, notes)
  {
  }

  /** Brings the found or created release to its complete, published form. */
  method FinishRelease(gh: GitHub, o: PublishOptions, id: nat, ghost notes: string) returns (r: Outcome<nat>)
    requires Mine(gh, o.tag, id) && UniqueNames(o.assets) && o.tag.stream == o.stream
    modifies gh`store, gh`history, gh`mine
    ensures gh.Continues() && Mine(gh, o.tag, id)
    ensures PointerKept(gh)
    ensures r.Done? ==> Resolve(gh.store, o.tag) == Resolved(o.sha)
    ensures r.Done? ==> r.value == id && Fulfilled(gh.store.releases[id], o.stream, o.tag, o.sha)
    ensures r.Done? ==> CheckRelease(o, old(gh.store).releases[id]).Done?
    ensures CheckRelease(o, old(gh.store).releases[id]).Threw? ==> gh.store == old(gh.store) && r.Threw?
    ensures Publishable(o) && Resumes(old(gh.store).releases[id], o, notes) ==> Resumes(gh.store.releases[id], o, notes)
    ensures Publishable(o) && Resumes(old(gh.store).releases[id], o, notes) && r.Threw? ==>
              Resolve(old(gh.store), o.tag) != Resolved(o.sha)
    ensures Accepts(o, old(gh.store).releases[id]) && Fulfilled(old(gh.store).releases[id], o.stream, o.tag, o.sha) ==>
              && gh.store.releases[id] == old(gh.store).releases[id]
              && (r.Threw? ==> Resolve(old(gh.store), o.tag) != Resolved(o.sha))
    ensures OwnUploads(old(gh.store).releases[id].assets, gh.store.releases[id].assets, o.assets)
    ensures r.Fault? ==> gh.faulty
  {
    hide PointerView; hide Advance; hide Consistent; hide IsFound; hide Later; hide Resumes; hide Publishable; hide CheckRelease;
    hide Exact; hide PartialOf; hide Resolve; hide UniqueNames; hide ReadState; hide ValidProvenance; hide Names;
    hide Fulfilled; hide Accepts;
    var release := gh.store.releases[id];
    if Publishable(o) && Resumes(release, o, notes) {
      ResumesChecked(o, release, notes);
    }
    AcceptedIff(o, release);
    FulfilledExact(release, o.stream, o.tag, o.sha);
    var state :- CheckRelease(o, release);
    Checked(o, release);
    var filled := FillRelease(gh, o, id, state);
    StageFilled(release, gh.store.releases[id], o, state, notes);
    ghost var start := old(gh.store);
    if Resolve(start, o.tag) == Resolved(o.sha) {
      ResolvePersists(start, gh.store, o.tag);
    }
    var _ :- filled;
    r := Conclude(gh, o, id, state, notes);
  }

  method Conclude(gh: GitHub, o: PublishOptions, id: nat, state: Provenance, ghost notes: string) returns (r: Outcome<nat>)
    requires Mine(gh, o.tag, id) && o.tag.stream == o.stream && Stage(gh.store.releases[id], o, state)
    modifies gh`store, gh`history, gh`mine
    ensures gh.Continues() && Mine(gh, o.tag, id)
    ensures PointerKept(gh)
    ensures r.Done? ==> Resolve(gh.store, o.tag) == Resolved(o.sha)
    ensures r.Done? ==> r.value == id && Fulfilled(gh.store.releases[id], o.stream, o.tag, o.sha)
    ensures Resumes(old(gh.store).releases[id], o, notes) ==> Resumes(gh.store.releases[id], o, notes)
    ensures r.Threw? ==>
              Resolve(old(gh.store), o.tag) != Resolved(o.sha) || !Exact(old(gh.store).releases[id].assets, state.assets)
    ensures Fulfilled(old(gh.store).releases[id], o.stream, o.tag, o.sha) ==> gh.store.releases[id] == old(gh.store).releases[id]
    ensures gh.store.releases[id].assets == old(gh.store).releases[id].assets
    ensures r.Fault? ==> gh.faulty
  {
    hide PointerView; hide Advance; hide Consistent; hide IsFound; hide Later; hide Resumes; hide Exact; hide Resolve;
    var release := gh.store.releases[id];
    var _ :- CheckAssets(gh, o, id, state);
    if state.phase == Complete && !(o.stream == Cli && release.draft) {
      return Done(id);
    }
    ghost var checked := gh.store;
    var marked := MarkComplete(gh, o, id, state);
    TagStays(checked, gh.store, o);
    StageCompleted(release, release.(body := Body(release.body.notes, [state.(phase := Complete)]),
                                     draft := if o.stream == Cli then false else release.draft), o, state, notes);
    var _ :- marked;
    return Done(id);
  }

  method FillRelease(gh: GitHub, o: PublishOptions, id: nat, state: Provenance) returns (r: Outcome<Unit>)
    requires Mine(gh, o.tag, id) && UniqueNames(o.assets)
    requires gh.store.releases[id].body.markers == [state] && UniqueNames(state.assets)
    modifies gh`store, gh`history, gh`mine
    ensures gh.Continues() && Mine(gh, o.tag, id)
    ensures PointerKept(gh)
    ensures var was, now := old(gh.store).releases[id], gh.store.releases[id];
            && now == was.(assets := now.assets)
            && (PartialOf(was.assets, state.assets) ==> PartialOf(now.assets, state.assets))
            && (PartialOf(was.assets, state.assets) && state.assets == o.assets ==> !r.Threw?)
            && (Exact(was.assets, state.assets) ==> now == was && !r.Threw?)
            && (r.Done? && PartialOf(was.assets, state.assets) ==> Exact(now.assets, state.assets))
    ensures OwnUploads(old(gh.store).releases[id].assets, gh.store.releases[id].assets, o.assets)
    ensures r.Fault? ==> gh.faulty
  {
    hide PointerView; hide Advance; hide Consistent; hide IsFound; hide Later;
    var _ :- Ask(gh, o.tag, id);
    if !(gh.store.releases[id].assets.Keys <= Names(state.assets)) {
      return Threw(UnownedAssets);
    }
    r := UploadMissing(gh, o, id, state);
  }

  method MarkComplete(gh: GitHub, o: PublishOptions, id: nat, state: Provenance) returns (r: Outcome<Unit>)
    requires Mine(gh, o.tag, id) && o.tag.stream == o.stream
    requires gh.store.releases[id].body.markers == [state] && Exact(gh.store.releases[id].assets, state.assets)
    modifies gh`store, gh`history, gh`mine
    ensures gh.Continues() && Mine(gh, o.tag, id)
    ensures PointerKept(gh)
    ensures var was := old(gh.store).releases[id];
            var next := was.(body := Body(was.body.notes, [state.(phase := Complete)]),
                             draft := if o.stream == Cli then false else was.draft);
            gh.store.releases[id] in {was, next} && (r.Done? ==> gh.store.releases[id] == next)
    ensures !r.Done? ==> r.Fault? && gh.faulty
  {
    hide PointerView; hide Advance; hide Consistent; hide IsFound;
    var release := gh.store.releases[id];
    r := PutRelease(gh, id, release.(body := WithState(release.body, state.(phase := Complete)),
                                     draft := if o.stream == Cli then false else release.draft));
  }

  method CheckAssets(gh: GitHub, o: PublishOptions, id: nat, st: Provenance) returns (r: Outcome<Unit>)
    requires Mine(gh, o.tag, id) && UniqueNames(st.assets)
    modifies gh`store, gh`history, gh`mine
    ensures gh.Continues() && Mine(gh, o.tag, id)
    ensures PointerKept(gh)
    ensures gh.store.releases[id] == old(gh.store).releases[id]
    ensures r.Done? ==> Exact(gh.store.releases[id].assets, st.assets) && Resolve(gh.store, o.tag) == Resolved(o.sha)
    ensures r.Threw? ==>
              || !Exact(gh.store.releases[id].assets, st.assets)
              || Resolve(old(gh.store), o.tag) != Resolved(o.sha) || !ValidSha(o.sha)
    ensures r.Fault? ==> gh.faulty
  {
    hide PointerView; hide Advance; hide Consistent; hide Later;
    var assets := VerifiedAssets(gh, id, st.assets);
    RelyKeepsPointer(gh.actor, old(gh.store), gh.store);
    FoundPersists(old(gh.store), gh.store, o.tag, id);
    if Resolve(old(gh.store), o.tag) == Resolved(o.sha) {
      ResolvePersists(old(gh.store), gh.store, o.tag);
    }
    var _ :- assets;
    ghost var before := gh.store;
    r := AssertTag(gh, o.tag, o.sha);
    RelyKeepsPointer(gh.actor, before, gh.store);
    FoundPersists(before, gh.store, o.tag, id);
  }

  /** A release for the tag is there and not this build's. */
  ghost predicate Refused(s: Store, o: PublishOptions) {
    exists i: nat :: IsFound(s.releases, o.tag, i) && !Accepts(o, s.releases[i])
  }

  /** The release is out already, with the same asset names. */
  ghost predicate Published(s: Store, o: PublishOptions) {
    && Resolve(s, o.tag) == Resolved(o.sha)
    && exists i: nat :: IsFound(s.releases, o.tag, i) && Accepts(o, s.releases[i])
         && Fulfilled(s.releases[i], o.stream, o.tag, o.sha)
  }

  /** Publishing asks for a tag of the stream and for files, each with its own name. */
  predicate WellFormed(o: PublishOptions) {
    o.tag.Versioned? && o.tag.stream == o.stream && o.assets != [] && UniqueNames(o.assets)
  }

  method PublishVersioned(gh: GitHub, o: PublishOptions) returns (r: Outcome<nat>)
    requires gh.Valid() && gh.actor == PublisherOf(o.stream)
    modifies gh`store, gh`history, gh`mine
    ensures gh.Continues()
    ensures PointerKept(gh)
    ensures r.Done? ==> Resolve(gh.store, o.tag) == Resolved(o.sha)
    ensures r.Done? ==> IsFound(gh.store.releases, o.tag, r.value) && Fulfilled(gh.store.releases[r.value], o.stream, o.tag, o.sha)
    ensures var notes := PlannedNotes(o, gh.changelog);
            Resumable(old(gh.store), o, notes) ==>
              && Resumable(gh.store, o, notes)
              && !r.Threw?
              && (r.Done? ==> Resumes(gh.store.releases[r.value], o, notes))
    ensures IsAbsent(old(gh.store).releases, o.tag) && Resolve(old(gh.store), o.tag) == Resolved(o.sha) && !gh.faulty ==>
              (r.Done? <==> Publishable(o))
    ensures IsAbsent(old(gh.store).releases, o.tag) && r.Done? ==>
              gh.store.releases[r.value].body.notes == if o.notes.Some? then o.notes.value else gh.changelog(o.tag)
    ensures Unreadable(old(gh.store), o.tag) ==> !r.Done?
    ensures IsAbsent(old(gh.store).releases, o.tag) && Resolve(old(gh.store), o.tag) == Resolved(o.sha) && !gh.faulty && Unpublishable(o) ==>
              r.Threw? && Unreadable(gh.store, o.tag)
    ensures !WellFormed(o) || Refused(old(gh.store), o) ==> Rely(gh.actor, old(gh.store), gh.store) && !r.Done?
    ensures WellFormed(o) && Published(old(gh.store), o) ==>
              && (r.Fault? || r.Done?)
              && forall i: nat | IsFound(old(gh.store).releases, o.tag, i) :: gh.store.releases[i] == old(gh.store).releases[i]
    ensures WellFormed(o) ==> OnlyOwnUploads(old(gh.store), gh.store, o.tag, o.assets)
    ensures r.Fault? ==> gh.faulty
  {
    hide PointerView; hide Advance; hide Consistent; hide Later; hide Rely; hide Publishable; hide Resumable; hide Accepts; hide Unpublishable;
    hide Fulfilled; hide Resumes; hide Resolve; hide Sole; hide PublishedAs; hide Unreadable; hide IsFound; hide Refused; hide Published;
    hide UniqueNames; hide IsAbsent; hide ValidSha; hide OnlyOwnUploads;
    ghost var notes := PlannedNotes(o, gh.changelog);
    ghost var start := gh.store;
    RelyReflexive(gh.actor, start);
    NeedsForm(o, start, notes);
    if !(o.tag.Versioned? && o.tag.stream == o.stream) {
      return Threw(InvalidTag);
    }
    var tagged := AssertTag(gh, o.tag, o.sha);
    ghost var before := gh.store;
    RelyKeepsPointer(gh.actor, start, before);
    StillKnown(gh.actor, start, before, o, notes);
    LookedUpOnly(gh.actor, start, before, o.tag, o.assets);
    var _ :- tagged;
    if o.assets == [] || !UniqueNames(o.assets) {
      return Threw(BadAssetSet);
    }
    r := PublishInto(gh, o);
    QuietThenOnly(gh.actor, start, before, gh.store, o);
    if Rely(gh.actor, before, gh.store) {
      RelyTransitive(gh.actor, start, before, gh.store);
    }
  }

  lemma QuietThenOnly(actor: Actor, a: Store, b: Store, c: Store, o: PublishOptions)
    requires Rely(actor, a, b) && Advance(b, c) && Owns(actor, o.tag) && OnlyOwnUploads(b, c, o.tag, o.assets)
    ensures OnlyOwnUploads(a, c, o.tag, o.assets)
  {
    hide Consistent; hide OwnUploads; hide Sole; hide PublishedAs;
    forall i: nat | i < |c.releases| && IsFound(c.releases, o.tag, i) ensures OwnUploads(AssetsAt(a, i), c.releases[i].assets, o.assets) {
      assert OwnUploads(AssetsAt(b, i), c.releases[i].assets, o.assets);
      if i < |b.releases| {
        AdvanceAt(b, c, i);
        if i < |a.releases| {
          AdvanceAt(a, b, i);
        }
      }
    }
  }

  lemma NeedsForm(o: PublishOptions, s: Store, notes: string)
    ensures Publishable(o) || Unpublishable(o) || Resumable(s, o, notes) ==> WellFormed(o)
    ensures Resolve(s, o.tag) == Resolved(o.sha) ==> ValidSha(o.sha)
    ensures Resumable(s, o, notes) || Published(s, o) ==> Resolve(s, o.tag) == Resolved(o.sha)
    ensures Unreadable(s, o.tag) ==> Refused(s, o)
  {
    if Unreadable(s, o.tag) {
      var i :| 0 <= i < |s.releases| && IsFound(s.releases, o.tag, i) && ReadState(s.releases[i].body).None?;
      assert !Accepts(o, s.releases[i]);
    }
  }

  /** Under the publisher's lock, what is known of its release stays known. */
  lemma StillKnown(actor: Actor, s: Store, s': Store, o: PublishOptions, notes: string)
    requires Rely(actor, s, s') && Owns(actor, o.tag) && o.tag.Versioned?
    ensures Resumable(s, o, notes) ==> Resumable(s', o, notes)
    ensures IsAbsent(s.releases, o.tag) ==> IsAbsent(s'.releases, o.tag)
    ensures Refused(s, o) ==> Refused(s', o)
    ensures Published(s, o) ==> Published(s', o)
    ensures Resolve(s, o.tag) == Resolved(o.sha) ==> Resolve(s', o.tag) == Resolved(o.sha)
    ensures forall i: nat | IsFound(s.releases, o.tag, i) :: IsFound(s'.releases, o.tag, i) && s'.releases[i] == s.releases[i]
  {
    hide Accepts; hide Fulfilled; hide Resumable; hide Sole; hide PublishedAs; hide Consistent;
    StillResumable(actor, s, s', o, notes);
    TagStays(s, s', o);
    forall i: nat | IsFound(s.releases, o.tag, i) ensures IsFound(s'.releases, o.tag, i) && s'.releases[i] == s.releases[i] {
      FoundPersists(s, s', o.tag, i);
    }
  }

  /** Finds or creates the release and brings it to its final form. */
  method PublishInto(gh: GitHub, o: PublishOptions) returns (r: Outcome<nat>)
    requires gh.Valid() && gh.actor == PublisherOf(o.stream) && WellFormed(o)
    modifies gh`store, gh`history, gh`mine
    ensures gh.Continues()
    ensures PointerKept(gh)
    ensures r.Done? ==> Resolve(gh.store, o.tag) == Resolved(o.sha)
    ensures r.Done? ==> IsFound(gh.store.releases, o.tag, r.value) && Fulfilled(gh.store.releases[r.value], o.stream, o.tag, o.sha)
    ensures var notes := PlannedNotes(o, gh.changelog);
            Resumable(old(gh.store), o, notes) ==>
              && Resumable(gh.store, o, notes)
              && !r.Threw?
              && (r.Done? ==> Resumes(gh.store.releases[r.value], o, notes))
    ensures IsAbsent(old(gh.store).releases, o.tag) ==>
              && (r.Done? ==> Publishable(o))
              && (r.Done? ==> gh.store.releases[r.value].body.notes == if o.notes.Some? then o.notes.value else gh.changelog(o.tag))
              && (Unpublishable(o) && !gh.faulty ==> r.Threw? && Unreadable(gh.store, o.tag))
    ensures Resolve(old(gh.store), o.tag) == Resolved(o.sha) && IsAbsent(old(gh.store).releases, o.tag) && Publishable(o) && !gh.faulty ==>
              r.Done?
    ensures Refused(old(gh.store), o) ==> Rely(gh.actor, old(gh.store), gh.store) && !r.Done?
    ensures Published(old(gh.store), o) ==>
              && (r.Fault? || r.Done?)
              && forall i: nat | IsFound(old(gh.store).releases, o.tag, i) :: gh.store.releases[i] == old(gh.store).releases[i]
    ensures OnlyOwnUploads(old(gh.store), gh.store, o.tag, o.assets)
    ensures r.Fault? ==> gh.faulty
  {
    hide PointerView; hide Advance; hide Consistent; hide Later; hide Rely; hide Accepts;
    hide Fulfilled; hide Resumes; hide Resolve; hide Sole; hide PublishedAs; hide Unreadable; hide IsFound;
    hide CheckRelease; hide UniqueNames; hide IsAbsent; hide Refused; hide Published; hide OwnUploads; hide OnlyOwnUploads;
    ghost var notes := PlannedNotes(o, gh.changelog);
    ghost var start := gh.store;
    var found := FindOrCreate(gh, o);
    LookedUp(gh.actor, start, gh.store, o, notes);
    PublishedFound(gh.store, o);
    DraftResumes(o, notes);
    var id :- found;
    ghost var before := gh.store;
    CheckReads(o, before, id, notes);
    FoundHere(before, o, id);
    AcceptedIff(o, before.releases[id]);
    r := FinishRelease(gh, o, id, notes);
    TagStays(before, gh.store, o);
    NotesStay(before, gh.store, id);
    FinishedOnly(start, before, gh.store, o.tag, id, o.assets);
  }

  lemma LookedUp(actor: Actor, s: Store, s': Store, o: PublishOptions, notes: string)
    requires Owns(actor, o.tag) && o.tag.Versioned? && (IsAbsent(s.releases, o.tag) || Rely(actor, s, s'))
    ensures Refused(s, o) ==> Refused(s', o) && Rely(actor, s, s')
    ensures Published(s, o) ==> Published(s', o)
    ensures forall i: nat | IsFound(s.releases, o.tag, i) :: i < |s.releases| && IsFound(s'.releases, o.tag, i) && s'.releases[i] == s.releases[i]
  {
    hide Accepts; hide Fulfilled; hide Rely; hide Resolve; hide Resumable;
    if Rely(actor, s, s') {
      StillKnown(actor, s, s', o, notes);
    }
  }

  lemma PublishedFound(s: Store, o: PublishOptions)
    ensures Published(s, o) ==> exists i: nat :: IsFound(s.releases, o.tag, i)
  {
  }

  lemma FoundHere(s: Store, o: PublishOptions, id: nat)
    requires IsFound(s.releases, o.tag, id)
    ensures id < |s.releases|
    ensures Refused(s, o) <==> !Accepts(o, s.releases[id])
    ensures Published(s, o) ==>
              Accepts(o, s.releases[id]) && Fulfilled(s.releases[id], o.stream, o.tag, o.sha) && Resolve(s, o.tag) == Resolved(o.sha)
    ensures forall i: nat | IsFound(s.releases, o.tag, i) :: i == id
  {
    hide Accepts; hide Fulfilled; hide Resolve;
    forall i: nat | IsFound(s.releases, o.tag, i) ensures i == id {
      FoundUnique(s.releases, o.tag, i, id);
    }
  }

  lemma NotesStay(s: Store, s': Store, id: nat)
    requires Advance(s, s') && id < |s.releases|
    ensures id < |s'.releases| && s'.releases[id].body.notes == s.releases[id].body.notes
  {
    AdvanceAt(s, s', id);
  }

  function Draft(o: PublishOptions, notes: string): Release {
    Release(o.tag, Body(notes, [Record(o, Pending)]), true, o.stream == Cli, map[])
  }

  method FindOrCreate(gh: GitHub, o: PublishOptions) returns (r: Outcome<nat>)
    requires gh.Valid() && Owns(gh.actor, o.tag) && o.tag.Versioned? && o.tag.stream == o.stream
    modifies gh`store, gh`history, gh`mine
    ensures gh.Continues()
    ensures PointerKept(gh)
    ensures r.Done? ==> Mine(gh, o.tag, r.value)
    ensures var notes := PlannedNotes(o, gh.changelog);
            && (Resumable(old(gh.store), o, notes) ==>
                  && Resumable(gh.store, o, notes) && !r.Threw?
                  && (r.Done? ==> Resumes(gh.store.releases[r.value], o, notes)))
            && (r.Done? && IsAbsent(old(gh.store).releases, o.tag) ==> gh.store.releases[r.value] == Draft(o, notes))
            && (IsAbsent(old(gh.store).releases, o.tag) ==> !r.Threw?)
    ensures IsAbsent(old(gh.store).releases, o.tag) || Rely(gh.actor, old(gh.store), gh.store)
    ensures r.Threw? ==> forall i: nat :: !IsFound(gh.store.releases, o.tag, i)
    ensures OnlyOwnUploads(old(gh.store), gh.store, o.tag, o.assets)
    ensures r.Fault? ==> gh.faulty
  {
    hide PointerView; hide Advance; hide Consistent; hide Later; hide Resumes; hide Publishable; hide Resolve;
    ghost var notes := PlannedNotes(o, gh.changelog);
    var found := ReleaseFor(gh, o.tag);
    RelyKeepsPointer(gh.actor, old(gh.store), gh.store);
    StillResumable(gh.actor, old(gh.store), gh.store, o, notes);
    LookedUpOnly(gh.actor, old(gh.store), gh.store, o.tag, o.assets);
    var existing :- found;
    if existing.Some? {
      if Resumable(gh.store, o, notes) {
        var i: nat :| IsFound(gh.store.releases, o.tag, i) && Resumes(gh.store.releases[i], o, notes);
        FoundUnique(gh.store.releases, o.tag, i, existing.value);
      }
      return Done(existing.value);
    }
    DraftResumes(o, notes);
    ghost var before := gh.store;
    r := CreateDraft(gh, o);
    NothingUploaded(gh.actor, old(gh.store), gh.store, o);
    TagStays(before, gh.store, o);
  }

  lemma NothingUploaded(actor: Actor, s: Store, s': Store, o: PublishOptions)
    requires Advance(s, s') && Owns(actor, o.tag) && o.tag.Versioned? && IsAbsent(s.releases, o.tag)
    requires IsAbsent(s'.releases, o.tag)
               || exists i: nat | i < |s'.releases| :: IsFound(s'.releases, o.tag, i) && s'.releases[i].assets == map[]
    ensures OnlyOwnUploads(s, s', o.tag, o.assets)
  {
    forall i: nat, j: nat | IsFound(s'.releases, o.tag, i) && IsFound(s'.releases, o.tag, j) ensures i == j {
      FoundUnique(s'.releases, o.tag, i, j);
    }
    LookedUpOnly(actor, s, s', o.tag, o.assets);
  }

  lemma TagStays(s: Store, s': Store, o: PublishOptions)
    requires Advance(s, s') && o.tag.Versioned?
    ensures Resolve(s, o.tag) == Resolved(o.sha) ==> Resolve(s', o.tag) == Resolved(o.sha)
  {
  }

  lemma DraftResumes(o: PublishOptions, notes: string)
    ensures var draft := Draft(o, notes);
            && Resumes(draft, o, notes)
            && (CheckRelease(o, draft).Done? && o.tag.Versioned? && o.tag.stream == o.stream ==> Publishable(o))
  {
  }

  /** Nothing another actor does takes a release out of its publisher's reach. */
  lemma StillResumable(actor: Actor, s: Store, s': Store, o: PublishOptions, notes: string)
    requires Rely(actor, s, s') && Owns(actor, o.tag) && o.tag.Versioned?
    ensures Resumable(s, o, notes) ==> Resumable(s', o, notes)
    ensures IsAbsent(s.releases, o.tag) ==> IsAbsent(s'.releases, o.tag)
  {
    if IsAbsent(s.releases, o.tag) {
      AbsentPersists(actor, s, s', o.tag);
    }
    if Resumable(s, o, notes) {
      ResolvePersists(s, s', o.tag);
      if !IsAbsent(s.releases, o.tag) {
        var i :| 0 <= i < |s.releases| && IsFound(s.releases, o.tag, i) && Resumes(s.releases[i], o, notes);
        FoundPersists(s, s', o.tag, i);
      }
    }
  }

  // ---------- whole runs ----------

  lemma FinalForm(r: Release, o: PublishOptions, notes: string)
    requires Publishable(o) && Resumes(r, o, notes) && Fulfilled(r, o.stream, o.tag, o.sha)
    ensures r == FinalRelease(o, notes)
  {
    InventoryExact(o.assets);
    ExactUnique(r.assets, Inventory(o.assets), o.assets);
  }

  lemma FinalAssets(specs: seq<AssetSpec>)
    requires UniqueNames(specs)
    ensures Inventory(specs).Keys == (set i | 0 <= i < |specs| :: specs[i].name)
    ensures forall i | 0 <= i < |specs| :: Inventory(specs)[specs[i].name] == RemoteAsset(Uploaded, specs[i].size, specs[i].digest)
  {
    InventoryExact(specs);
    forall i | 0 <= i < |specs| ensures Inventory(specs)[specs[i].name] == RemoteAsset(Uploaded, specs[i].size, specs[i].digest) {
      assert Holds(Inventory(specs), specs[i]);
    }
  }

  /**
   * However often and wherever runs are cut, the next undisturbed one neither throws nor differs:
   * it ends in the release a single undisturbed run would have made.
   */
  method PublishDespiteCrashes(gh: GitHub, o: PublishOptions, cuts: nat) returns (r: Outcome<nat>)
    requires gh.Valid() && gh.actor == PublisherOf(o.stream)
    requires Publishable(o) && Resolve(gh.store, o.tag) == Resolved(o.sha) && IsAbsent(gh.store.releases, o.tag)
    modifies gh
    ensures gh.Continues()
    ensures r.Done? && IsFound(gh.store.releases, o.tag, r.value)
    ensures gh.store.releases[r.value] == FinalRelease(o, PlannedNotes(o, gh.changelog))
    ensures var final := gh.store.releases[r.value];
            && final.tag == o.tag && final.draft == (o.stream == Desktop) && final.prerelease == (o.stream == Cli)
            && final.body.notes == (if o.notes.Some? then o.notes.value else gh.changelog(o.tag))
            && final.body.markers == [Provenance(o.tag, o.sha, Complete, o.assets)]
            && final.assets.Keys == (set i | 0 <= i < |o.assets| :: o.assets[i].name)
            && forall i | 0 <= i < |o.assets| ::
                 final.assets[o.assets[i].name] == RemoteAsset(Uploaded, o.assets[i].size, o.assets[i].digest)
  {
    hide Advance; hide Consistent; hide Resumes; hide Rely; hide Refused; hide Published; hide WellFormed; hide Unreadable; hide Unpublishable;
    hide Fulfilled; hide Sole; hide PublishedAs; hide Resolve; hide PointerView; hide Names;
    ghost var notes := PlannedNotes(o, gh.changelog);
    gh.faulty := true;
    for i := 0 to cuts
      invariant gh.Continues() && Resumable(gh.store, o, notes)
    {
      var _ := PublishVersioned(gh, o);
    }
    gh.faulty := false;
    r := PublishVersioned(gh, o);
    FinalForm(gh.store.releases[r.value], o, notes);
    FinalAssets(o.assets);
  }

  /**
   * A build with an empty or nameless file is refused only after its draft is there, and the draft's
   * record cannot be read: no later run for the tag succeeds, with whatever files, cut or not.
   */
  method UnreadableDraftBlocks(gh: GitHub, o: PublishOptions, later: seq<PublishOptions>)
    returns (first: Outcome<nat>, outcomes: seq<Outcome<nat>>)
    requires gh.Valid() && gh.actor == PublisherOf(o.stream) && !gh.faulty
    requires Unpublishable(o) && Resolve(gh.store, o.tag) == Resolved(o.sha) && IsAbsent(gh.store.releases, o.tag)
    requires forall l | l in later :: l.tag == o.tag && l.stream == o.stream
    modifies gh
    ensures gh.Continues() && Unreadable(gh.store, o.tag)
    ensures first.Threw? && |outcomes| == |later| && forall r | r in outcomes :: !r.Done?
  {
    hide Advance; hide Consistent; hide Unreadable; hide Resolve; hide IsAbsent;
    first := PublishVersioned(gh, o);
    outcomes := [];
    gh.faulty := true;
    for i := 0 to |later|
      invariant gh.Continues() && Unreadable(gh.store, o.tag) && gh.faulty
      invariant |outcomes| == i && forall r | r in outcomes :: !r.Done?
    {
      ghost var before := gh.store;
      assert later[i] in later;
      var r := PublishVersioned(gh, later[i]);
      UnreadablePersists(before, gh.store, o.tag);
      outcomes := outcomes + [r];
    }
  }
}
