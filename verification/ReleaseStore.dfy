/**
 * The remote store the release scripts drive, and what must hold of it.
 *
 * A release's id is its position in `releases`: no operation deletes a release. Asset names are
 * unique within a release, as the server guarantees. SHA-256 is taken to be injective, so a digest
 * is represented by the bytes it stands for.
 */
module ReleaseStore {
  import opened Text
  import opened Wrappers

  /** Why a script gives up, or what the server answers with a 4xx status. */
  datatype Reason =
    | AlreadyExists | AssetConflict | InventoryChanged | IncompleteRelease | NotPublished | UnverifiedLegacy
    | CyclicTag | IncompleteAssets | InvalidTag | InvalidSha | LegacyConflict | NotFound | AmbiguousRelease
    | NoProvenance | OriginalRequired | OrphanPointerTag | ProvenanceConflict | BadAssetSet | ShaConflict
    | TagOwned | NotACommit | WrongChannel | UnownedAssets

  /** How an operation ends: a result, an exception of the script or a 4xx reply, or a lost request. */
  datatype Outcome<+T> = Done(value: T) | Threw(reason: Reason) | Fault
  {
    predicate IsFailure() { !Done? }
    function PropagateFailure<U>(): Outcome<U>
      requires !Done?
    {
      if Fault? then Outcome.Fault else Outcome.Threw(reason)
    }
    function Extract(): T
      requires Done?
    {
      value
    }
  }

  datatype Unit = Unit

  datatype Stream = Cli | Desktop

  datatype Version = Version(major: nat, minor: nat, patch: nat)

  /** Precedence of plain triples, section 11 of Semantic Versioning 2.0.0. */
  predicate AtMost(a: Version, b: Version) {
    || a.major < b.major
    || (a.major == b.major && a.minor < b.minor)
    || (a.major == b.major && a.minor == b.minor && a.patch <= b.patch)
  }

  predicate FloorAtMost(a: Option<Version>, b: Option<Version>) {
    a.Some? ==> b.Some? && AtMost(a.value, b.value)
  }

  function VersionText(v: Version): string {
    Decimal(v.major) + "." + Decimal(v.minor) + "." + Decimal(v.patch)
  }

  /** Versions are totally ordered, and raising a part makes a later version whatever follows it. */
  lemma VersionOrder(a: Version, b: Version, c: Version)
    ensures AtMost(a, b) || AtMost(b, a)
    ensures AtMost(a, b) && AtMost(b, a) <==> a == b
    ensures AtMost(a, b) && AtMost(b, c) ==> AtMost(a, c)
    ensures !AtMost(Version(a.major + 1, 0, 0), a) && !AtMost(Version(a.major, a.minor + 1, 0), a)
    ensures !AtMost(Version(a.major, a.minor, a.patch + 1), a)
    ensures a.major < b.major ==> AtMost(a, b)
    ensures a.major == b.major && a.minor < b.minor ==> AtMost(a, b)
  {
  }

  /** `cli-v1.2.3` or `desktop-v1.2.3`, the rolling `cli-latest`, or any other tag name. */
  datatype Tag = Versioned(stream: Stream, version: Version) | CliLatest | Unrelated(name: string)

  datatype ObjectKind = CommitObject | TagObject | OtherObject
  datatype GitObject = GitObject(kind: ObjectKind, sha: string)

  predicate ValidSha(sha: string) {
    |sha| == 40 && forall c | c in sha :: '0' <= c <= '9' || 'a' <= c <= 'f'
  }

  /** File contents. `spells` is the version the trimmed text reads as, if it reads as one. */
  datatype Content = Content(id: nat, spells: Option<Version>)

  datatype AssetSpec = AssetSpec(name: string, size: nat, digest: Content)

  datatype AssetState = Starter | Open | Uploaded
  datatype RemoteAsset = RemoteAsset(state: AssetState, size: nat, content: Content)

  datatype Phase = Pending | Complete
  datatype Provenance = Provenance(tag: Tag, sha: string, phase: Phase, assets: seq<AssetSpec>)

  /** A release body: the provenance markers in it and the trimmed text around them. */
  datatype Body = Body(notes: string, markers: seq<Provenance>)

  datatype Release = Release(tag: Tag, body: Body, draft: bool, prerelease: bool, assets: map<string, RemoteAsset>)

  datatype Store = Store(
    tags: map<Tag, GitObject>,
    objects: map<string, GitObject>,
    releases: seq<Release>,
    dispatched: seq<Tag>)

  // ---------- tags ----------

  datatype Resolution = Missing | Resolved(sha: string) | Broken

  /** Follows annotated tags to a commit; a repeated object is a cycle. */
  function Follow(objects: map<string, GitObject>, at: GitObject, seen: set<string>): (r: Resolution)
    ensures r != Missing && (r.Resolved? ==> ValidSha(r.sha))
    decreases objects.Keys - seen
  {
    match at.kind
    case TagObject =>
      if at.sha in seen || at.sha !in objects then Broken
      else Follow(objects, objects[at.sha], seen + {at.sha})
    case CommitObject => if ValidSha(at.sha) then Resolved(at.sha) else Broken
    case OtherObject => Broken
  }

  function Resolve(s: Store, tag: Tag): Resolution {
    if tag in s.tags then Follow(s.objects, s.tags[tag], {}) else Missing
  }

  // ---------- provenance ----------

  function Names(specs: seq<AssetSpec>): set<string> {
    set i | 0 <= i < |specs| :: specs[i].name
  }

  predicate UniqueNames(specs: seq<AssetSpec>) {
    forall i, j | 0 <= i < j < |specs| :: specs[i].name != specs[j].name
  }

  predicate ValidProvenance(st: Provenance) {
    && st.assets != []
    && (forall i | 0 <= i < |st.assets| :: st.assets[i].name != "" && st.assets[i].size > 0)
    && UniqueNames(st.assets)
    && ValidSha(st.sha)
  }

  /** The record in a body, when there is exactly one and it is well formed. */
  function ReadState(body: Body): Option<Provenance> {
    if |body.markers| == 1 && ValidProvenance(body.markers[0]) then Some(body.markers[0]) else None
  }

  function WithState(body: Body, st: Provenance): Body {
    Body(body.notes, [st])
  }

  predicate MentionsMarker(body: Body) {
    body.markers != [] || Contains(body.notes, "choros-release-state:")
  }

  // ---------- assets ----------

  predicate Matches(asset: RemoteAsset, spec: AssetSpec) {
    asset.state == Uploaded && asset.size == spec.size && asset.content == spec.digest
  }

  predicate Holds(assets: map<string, RemoteAsset>, spec: AssetSpec) {
    spec.name in assets && Matches(assets[spec.name], spec)
  }

  /** The remote assets are the recorded inventory: nothing missing, changed or extra. */
  predicate Exact(assets: map<string, RemoteAsset>, specs: seq<AssetSpec>) {
    && assets.Keys == Names(specs)
    && forall i | 0 <= i < |specs| :: Holds(assets, specs[i])
  }

  const VERSION_FILE := "version.txt"

  function Manifest(v: Version): AssetSpec {
    AssetSpec(VERSION_FILE, |VersionText(v)| + 1, Content(0, Some(v)))
  }

  // ---------- lookup ----------

  predicate IsAbsent(releases: seq<Release>, tag: Tag) {
    forall i | 0 <= i < |releases| :: releases[i].tag != tag
  }

  predicate PublishedAs(releases: seq<Release>, tag: Tag, i: nat)
    requires i < |releases|
  {
    releases[i].tag == tag && !releases[i].draft
  }

  predicate Sole(releases: seq<Release>, i: nat)
    requires i < |releases|
  {
    forall j | 0 <= j < |releases| && j != i :: releases[j].tag != releases[i].tag
  }

  /** Release `i` is the one a lookup of `tag` returns: the published one, or else the only draft. */
  predicate IsFound(releases: seq<Release>, tag: Tag, i: nat) {
    && i < |releases|
    && releases[i].tag == tag
    && if releases[i].draft then Sole(releases, i)
       else forall j | 0 <= j < i :: !PublishedAs(releases, tag, j)
  }

  // ---------- the rolling pointer ----------

  function LegacyVersion(r: Release): Option<Version> {
    if VERSION_FILE in r.assets && r.assets[VERSION_FILE].state == Uploaded && r.assets[VERSION_FILE].size <= 100
    then r.assets[VERSION_FILE].content.spells
    else None
  }

  /** The version a pointer release records: in its body, or in a legacy pointer's `version.txt`. */
  function Floor(r: Release): Option<Version> {
    if |r.body.markers| == 1 then
      (if r.body.markers[0].tag.Versioned? then Some(r.body.markers[0].tag.version) else None)
    else if r.body.markers == [] then LegacyVersion(r)
    else None
  }

  /** A published, complete release whose record is `st` without the manifest. */
  predicate SourceOf(r: Release, st: Provenance) {
    && st.tag.Versioned? && st.tag.stream == Cli
    && !r.draft
    && ReadState(r.body).Some?
    && var source := ReadState(r.body).value;
    && source.tag == st.tag && source.sha == st.sha && source.phase == Complete
    && st.assets == source.assets + [Manifest(st.tag.version)]
  }

  /** A record of the pointer is a published release's; a complete one is also what users get. */
  predicate PointerSound(s: Store, p: nat)
    requires p < |s.releases|
  {
    var r := s.releases[p];
    var state := ReadState(r.body);
    state.Some? ==>
      && (exists k | 0 <= k < |s.releases| ::
            IsFound(s.releases, state.value.tag, k) && SourceOf(s.releases[k], state.value))
      && Resolve(s, state.value.tag) == Resolved(state.value.sha)
      && (state.value.phase == Complete ==>
            && Exact(r.assets, state.value.assets)
            && Resolve(s, CliLatest) == Resolved(state.value.sha))
  }

  /** A versioned release whose record says complete holds exactly what the record lists. */
  predicate Honest(r: Release) {
    r.tag.Versioned? && ReadState(r.body).Some? && ReadState(r.body).value.phase == Complete ==>
      Exact(r.assets, ReadState(r.body).value.assets)
  }

  /** No record claims what is not so. */
  predicate Consistent(s: Store) {
    && (forall i | 0 <= i < |s.releases| :: Honest(s.releases[i]))
    && (forall p | 0 <= p < |s.releases| && IsFound(s.releases, CliLatest, p) :: PointerSound(s, p))
  }

  /** The rolling pointer: its releases by id, and its tag. */
  function PointerView(s: Store): (map<nat, Release>, Option<GitObject>) {
    (map i: nat | i < |s.releases| && s.releases[i].tag == CliLatest :: s.releases[i],
     if CliLatest in s.tags then Some(s.tags[CliLatest]) else None)
  }

  // ---------- what a step may do ----------

  /** A versioned release keeps its record and its uploaded bytes, and gains only recorded assets. */
  predicate VersionedLater(r: Release, r': Release) {
    if |r.body.markers| != 1 then r' == r
    else
      && |r'.body.markers| == 1
      && var st, st' := r.body.markers[0], r'.body.markers[0];
      && st'.tag == st.tag && st'.sha == st.sha && st'.assets == st.assets
      && (st.phase == Complete ==> st'.phase == Complete)
      && (forall n | n in r.assets && r.assets[n].state == Uploaded :: n in r'.assets && r'.assets[n] == r.assets[n])
      && (forall n | n in r'.assets && n !in r.assets :: n in Names(st.assets))
  }

  predicate Later(r: Release, r': Release) {
    && r'.tag == r.tag && r'.prerelease == r.prerelease && r'.body.notes == r.body.notes
    && (!r.draft ==> !r'.draft)
    && match r.tag
       case Versioned(_, _) => VersionedLater(r, r')
       case CliLatest => FloorAtMost(Floor(r), Floor(r'))
       case Unrelated(_) => r' == r
  }

  /** Every step of every operation stays within this relation; it is reflexive and transitive. */
  predicate Advance(s: Store, s': Store) {
    && s'.objects == s.objects
    && (forall t | t in s.tags && t != CliLatest :: t in s'.tags && s'.tags[t] == s.tags[t])
    && |s.releases| <= |s'.releases|
    && (forall i | 0 <= i < |s.releases| :: Later(s.releases[i], s'.releases[i]))
    && (forall i | 0 <= i < |s.releases| && s.releases[i].draft && !s'.releases[i].draft :: Sole(s.releases, i))
    && (forall i | |s.releases| <= i < |s'.releases| :: Sole(s'.releases, i))
    && s.dispatched <= s'.dispatched
  }

  // ---------- who owns what ----------

  /** The two publishers each run under a serial lock; lockstep dispatch runs freely beside them. */
  datatype Actor = CliPublisher | DesktopPublisher | Lockstep

  predicate Owns(actor: Actor, tag: Tag) {
    match tag
    case Versioned(Cli, _) => actor == CliPublisher
    case Versioned(Desktop, _) => actor == DesktopPublisher
    case CliLatest => actor == CliPublisher
    case Unrelated(_) => false
  }

  /** Nothing `actor` owns has changed. */
  predicate Untouched(actor: Actor, s: Store, s': Store) {
    && |s.releases| <= |s'.releases|
    && (forall i | 0 <= i < |s.releases| && Owns(actor, s.releases[i].tag) :: s'.releases[i] == s.releases[i])
    && (forall i | |s.releases| <= i < |s'.releases| :: !Owns(actor, s'.releases[i].tag))
    && (actor == CliPublisher ==>
          && (CliLatest in s.tags <==> CliLatest in s'.tags)
          && (CliLatest in s.tags ==> s'.tags[CliLatest] == s.tags[CliLatest]))
  }

  /** What the others may have done between two requests of `actor`. */
  predicate Rely(actor: Actor, s: Store, s': Store) {
    && Advance(s, s')
    && Untouched(actor, s, s')
    && (Consistent(s) ==> Consistent(s'))
  }

  /** A step of `actor` that every other actor, and another lockstep run, tolerates. */
  predicate Permitted(actor: Actor, s: Store, s': Store) {
    forall other: Actor | other != actor || other == Lockstep :: Rely(other, s, s')
  }
}
