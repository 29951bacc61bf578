/**
 * The connection a release script works through.
 *
 * Before each request the other actors may do anything `Rely` allows. A request may be lost before
 * or after it takes effect, and the script then stops, so what holds whenever an operation returns
 * holds at every point it may be cut at. `history` collects every store the run passes through.
 */
module ReleaseClient {
  import opened Wrappers
  import opened ReleaseStore
  import opened ReleaseSteps

  class GitHub {
    const actor: Actor
    const changelog: Tag -> string
    var faulty: bool
    var store: Store
    ghost var history: seq<Store>
    /** The numbers in `history` of the stores that requests of this connection led to. */
    ghost var mine: set<nat>

    ghost predicate Valid()
      reads this
    {
      && history != [] && history[|history| - 1] == store
      && (forall i, j | 0 <= i <= j < |history| :: Advance(history[i], history[j]))
      && Run(history)
      && (forall i | i in mine :: i < |history|)
      && (actor == CliPublisher ==> TagsFollow(history))
    }

    twostate predicate Continues()
      reads this
    {
      && Valid() && old(history) <= history && Advance(old(store), store)
      && old(mine) <= mine && forall i | i in mine && i < |old(history)| :: i in old(mine)
    }

    constructor (actor: Actor, changelog: Tag -> string, store: Store, faulty: bool)
      ensures Valid() && this.actor == actor && this.changelog == changelog
      ensures this.store == store && this.faulty == faulty && history == [store] && mine == {}
    {
      this.actor, this.changelog, this.store, this.faulty := actor, changelog, store, faulty;
      history, mine := [store], {};
    }

    method Move(next: Store)
      requires Valid() && Advance(store, next) && (Consistent(store) ==> Consistent(next))
      requires actor == CliPublisher ==> TagFollows(store, next)
      modifies this`store, this`history
      ensures Continues() && store == next && history == old(history) + [next]
    {
      hide Consistent, Advance, TagFollows;
      forall i | 0 <= i < |history| ensures Advance(history[i], next) {
        AdvanceTransitive(history[i], store, next);
      }
      AdvanceReflexive(next);
      store := next;
      history := history + [next];
    }

    /** Other actors run for a while. */
    method Interfere()
      requires Valid()
      modifies this`store, this`history
      ensures Continues() && Rely(actor, old(store), store)
    {
      var next: Store := *;
      if Rely(actor, store, next) {
        Move(next);
      }
    }

    /** A request without effect; the reply describes the store as it is on return. */
    method Read() returns (r: Outcome<Unit>)
      requires Valid()
      modifies this`store, this`history
      ensures Continues() && Rely(actor, old(store), store)
      ensures !r.Done? ==> r.Fault? && faulty
    {
      Interfere();
      if faulty {
        if * {
          return Fault;
        }
      }
      return Done(Unit.Unit);
    }

    /** A request whose effect is `next`. */
    method Send(next: Store) returns (r: Outcome<Unit>)
      requires Valid() && Permitted(actor, store, next)
      requires actor == CliPublisher ==> TagFollows(store, next)
      modifies this`store, this`history, this`mine
      ensures Continues()
      ensures r.Done? ==> store == next && history == old(history) + [next] && mine == old(mine) + {|history| - 1}
      ensures !r.Done? ==> r.Fault? && faulty && (store == old(store) || store == next)
    {
      assert Rely(Lockstep, store, next);
      if faulty {
        if * {
          return Fault;
        }
      }
      Move(next);
      mine := mine + {|history| - 1};
      if faulty {
        if * {
          return Fault;
        }
      }
      return Done(Unit.Unit);
    }
  }

  // ---------- reads ----------

  /** Whether nobody but `actor` moves `tag` once it exists. */
  predicate Settled(actor: Actor, tag: Tag) {
    tag != CliLatest || actor == CliPublisher
  }

  lemma SettledResolves(actor: Actor, s: Store, s': Store, tag: Tag)
    requires Rely(actor, s, s')
    ensures s'.objects == s.objects
    ensures Settled(actor, tag) && (Resolve(s, tag) != Missing || tag == CliLatest) ==> Resolve(s', tag) == Resolve(s, tag)
  {
  }

  /** Whether `tag` stays where it is in the stores from number `n` on, once it exists. */
  predicate Steady(actor: Actor, tag: Tag, stores: seq<Store>, n: int) {
    Settled(actor, tag) || Still(stores, n)
  }

  lemma ResolveSteady(actor: Actor, tag: Tag, before: seq<Store>, stores: seq<Store>, n: nat)
    requires n < |before| && before <= stores && Rely(actor, before[|before| - 1], stores[|stores| - 1])
    ensures stores[|stores| - 1].objects == before[|before| - 1].objects
    ensures Steady(actor, tag, stores, n) ==>
              && Steady(actor, tag, before, n)
              && (Resolve(before[|before| - 1], tag) != Missing || tag == CliLatest ==>
                    Resolve(stores[|stores| - 1], tag) == Resolve(before[|before| - 1], tag))
  {
    hide Advance; hide Consistent; hide PointerView; hide Untouched;
    var s, s' := before[|before| - 1], stores[|stores| - 1];
    if Settled(actor, tag) {
      SettledResolves(actor, s, s', tag);
    } else {
      SettledResolves(actor, s, s', tag);
      if Still(stores, n) {
        StillParts(before, stores, n);
        SameView(s, s');
      }
    }
  }

  method ResolveTag(gh: GitHub, tag: Tag) returns (r: Outcome<Option<string>>)
    requires gh.Valid()
    modifies gh`store, gh`history
    ensures gh.Continues() && Rely(gh.actor, old(gh.store), gh.store)
    ensures Steady(gh.actor, tag, gh.history, |old(gh.history)| - 1) ==>
              && (r.Done? && r.value.Some? ==> Resolve(gh.store, tag) == Resolved(r.value.value))
              && (r.Done? && r.value.None? ==> Resolve(old(gh.store), tag) == Missing)
              && (r.Done? && r.value.None? && tag == CliLatest ==> Resolve(gh.store, tag) == Missing)
              && (r.Threw? ==> Resolve(old(gh.store), tag) in {Missing, Broken} && Resolve(gh.store, tag) == Broken)
              && (r.Threw? && tag == CliLatest ==> Resolve(old(gh.store), tag) == Broken)
    ensures r.Fault? ==> gh.faulty
  {
    hide Advance; hide Consistent; hide Rely; hide Steady; hide Run;
    ghost var n := |gh.history| - 1;
    ghost var before := gh.history;
    var first := gh.Read();
    ResolveSteady(gh.actor, tag, before, gh.history, n);
    var _ :- first;
    if tag !in gh.store.tags {
      return Done(None);
    }
    var ref := gh.store.tags[tag];
    var seen := {};
    ghost var target := Resolve(gh.store, tag);
    ghost var objects := gh.store.objects;
    while ref.kind == TagObject
      invariant gh.Continues() && Rely(gh.actor, old(gh.store), gh.store)
      invariant gh.store.objects == objects && target != Missing
      invariant Steady(gh.actor, tag, gh.history, n) ==>
                  && Resolve(gh.store, tag) == target
                  && (Resolve(old(gh.store), tag) != Missing || tag == CliLatest ==> Resolve(old(gh.store), tag) == target)
      invariant Follow(objects, ref, seen) == target
      decreases objects.Keys - seen
    {
      if ref.sha in seen {
        return Threw(CyclicTag);
      }
      before := gh.history;
      var read := gh.Read();
      RelyTransitive(gh.actor, old(gh.store), before[|before| - 1], gh.store);
      ResolveSteady(gh.actor, tag, before, gh.history, n);
      var _ :- read;
      if ref.sha !in gh.store.objects {
        return Threw(NotFound);
      }
      seen := seen + {ref.sha};
      ref := gh.store.objects[ref.sha];
    }
    if ref.kind != CommitObject {
      return Threw(NotACommit);
    }
    if !ValidSha(ref.sha) {
      return Threw(InvalidSha);
    }
    return Done(Some(ref.sha));
  }

  method AssertTag(gh: GitHub, tag: Tag, sha: string) returns (r: Outcome<Unit>)
    requires gh.Valid()
    modifies gh`store, gh`history
    ensures gh.Continues() && Rely(gh.actor, old(gh.store), gh.store)
    ensures Steady(gh.actor, tag, gh.history, |old(gh.history)| - 1) ==>
              && (r.Done? ==> Resolve(gh.store, tag) == Resolved(sha) && ValidSha(sha))
              && (r.Threw? ==> Resolve(old(gh.store), tag) != Resolved(sha) || !ValidSha(sha))
    ensures r.Fault? ==> gh.faulty
  {
    hide Steady; hide Advance; hide Consistent; hide Resolve;
    RelyReflexive(gh.actor, gh.store);
    if !ValidSha(sha) {
      return Threw(InvalidSha);
    }
    ghost var before := gh.history;
    var resolved := ResolveTag(gh, tag);
    ResolveSteady(gh.actor, tag, before, gh.history, |before| - 1);
    var actual :- resolved;
    if actual != Some(sha) {
      return Threw(ShaConflict);
    }
    return Done(Unit.Unit);
  }

  /** The release a tag names: the published one, or else the only draft that claims it. */
  method ReleaseFor(gh: GitHub, tag: Tag) returns (r: Outcome<Option<nat>>)
    requires gh.Valid()
    modifies gh`store, gh`history
    ensures gh.Continues() && Rely(gh.actor, old(gh.store), gh.store)
    ensures r.Done? && r.value.Some? ==> IsFound(gh.store.releases, tag, r.value.value)
    ensures r.Done? && r.value.None? ==> IsAbsent(gh.store.releases, tag)
    ensures r.Threw? ==> !IsAbsent(gh.store.releases, tag) && forall i: nat :: !IsFound(gh.store.releases, tag, i)
    ensures r.Fault? ==> gh.faulty
  {
    hide Advance; hide Consistent;
    var _ :- gh.Read();
    var i := 0;
    while i < |gh.store.releases|
      invariant 0 <= i <= |gh.store.releases|
      invariant forall j | 0 <= j < i :: !PublishedAs(gh.store.releases, tag, j)
    {
      if PublishedAs(gh.store.releases, tag, i) {
        return Done(Some(i));
      }
      i := i + 1;
    }
    ghost var before := gh.store;
    var read := gh.Read();
    RelyTransitive(gh.actor, old(gh.store), before, gh.store);
    var _ :- read;
    var found: Option<nat> := None;
    i := 0;
    while i < |gh.store.releases|
      invariant 0 <= i <= |gh.store.releases|
      invariant found.None? ==> forall j | 0 <= j < i :: gh.store.releases[j].tag != tag
      invariant found.Some? ==>
          && found.value < i && gh.store.releases[found.value].tag == tag
          && forall j | 0 <= j < i && j != found.value :: gh.store.releases[j].tag != tag
    {
      if gh.store.releases[i].tag == tag {
        if found.Some? {
          TwoHolders(before, gh.store, tag, found.value, i);
          return Threw(AmbiguousRelease);
        }
        found := Some(i);
      }
      i := i + 1;
    }
    return Done(found);
  }

  /** Two claims none of which was published a moment ago: a lookup finds none of them. */
  lemma TwoHolders(s: Store, s': Store, tag: Tag, i: nat, j: nat)
    requires Advance(s, s') && i < j < |s'.releases|
    requires s'.releases[i].tag == tag == s'.releases[j].tag
    requires forall k | 0 <= k < |s.releases| :: !PublishedAs(s.releases, tag, k)
    ensures forall k: nat :: !IsFound(s'.releases, tag, k)
  {
    assert !Sole(s'.releases, i) && !Sole(s'.releases, j);
    assert j < |s.releases|;
    assert forall m | 0 <= m < |s.releases| :: Later(s.releases[m], s'.releases[m]);
    forall k: nat ensures !IsFound(s'.releases, tag, k) {
      if k < |s'.releases| && s'.releases[k].tag == tag {
        assert k == i || s'.releases[i].tag == s'.releases[k].tag;
        assert k == j || s'.releases[j].tag == s'.releases[k].tag;
        assert !Sole(s'.releases, k) && k < |s.releases|;
        assert !PublishedAs(s.releases, tag, k) && !Sole(s.releases, k);
        assert s'.releases[k].draft;
      }
    }
  }

  /** Equal counts and every expected name found leave no room for an extra or a missing asset. */
  lemma Pigeonhole(assets: map<string, RemoteAsset>, specs: seq<AssetSpec>)
    requires UniqueNames(specs) && |assets| == |specs|
    requires forall i | 0 <= i < |specs| :: Holds(assets, specs[i])
    ensures Exact(assets, specs)
  {
    NameCount(specs);
    assert Names(specs) <= assets.Keys;
    assert |assets.Keys| == |assets|;
    SubsetOfSameSize(Names(specs), assets.Keys);
  }

  lemma {:induction false} NameCount(specs: seq<AssetSpec>)
    requires UniqueNames(specs)
    ensures |Names(specs)| == |specs|
  {
    if specs != [] {
      var last := |specs| - 1;
      NameCount(specs[..last]);
      assert Names(specs) == Names(specs[..last]) + {specs[last].name};
    } else {
      assert Names(specs) == {};
    }
  }

  lemma {:induction false} SubsetOfSameSize<T>(a: set<T>, b: set<T>)
    requires a <= b && |a| == |b|
    ensures a == b
  {
    assert |b - a| == |b| - |a|;
  }

  /** Every recorded asset is among these, as recorded; the bytes are fetched where the server gives no digest. */
  method EachHolds(gh: GitHub, assets: map<string, RemoteAsset>, specs: seq<AssetSpec>) returns (r: Outcome<Unit>)
    requires gh.Valid()
    modifies gh`store, gh`history
    ensures gh.Continues() && Rely(gh.actor, old(gh.store), gh.store)
    ensures r.Done? ==> forall i | 0 <= i < |specs| :: Holds(assets, specs[i])
    ensures r.Threw? ==> exists i | 0 <= i < |specs| :: !Holds(assets, specs[i])
    ensures r.Fault? ==> gh.faulty
  {
    hide Advance; hide Consistent; hide Rely; hide Run;
    RelyReflexive(gh.actor, gh.store);
    for i := 0 to |specs|
      invariant gh.Continues() && Rely(gh.actor, old(gh.store), gh.store)
      invariant forall j | 0 <= j < i :: Holds(assets, specs[j])
    {
      ghost var before := gh.store;
      var read := gh.Read();
      RelyTransitive(gh.actor, old(gh.store), before, gh.store);
      var _ :- read;
      if !Holds(assets, specs[i]) {
        return Threw(AssetConflict);
      }
    }
    return Done(Unit.Unit);
  }

  method VerifiedAssets(gh: GitHub, id: nat, specs: seq<AssetSpec>) returns (r: Outcome<map<string, RemoteAsset>>)
    requires gh.Valid() && id < |gh.store.releases|
    modifies gh`store, gh`history
    ensures gh.Continues() && Rely(gh.actor, old(gh.store), gh.store)
    ensures r.Done? && UniqueNames(specs) ==> Exact(r.value, specs)
    ensures r.Done? ==> |r.value| == |specs|
    ensures r.Done? && Owns(gh.actor, gh.store.releases[id].tag) ==> r.value == gh.store.releases[id].assets
    ensures r.Done? && UniqueNames(specs) && Records(gh.store.releases[id], specs) ==>
              Exact(gh.store.releases[id].assets, specs)
    ensures r.Threw? && UniqueNames(specs) && Owns(gh.actor, gh.store.releases[id].tag) ==>
              !Exact(gh.store.releases[id].assets, specs)
    ensures r.Threw? && UniqueNames(specs) && Lasting(old(gh.store).releases[id], specs, gh.history, |old(gh.history)| - 1) ==>
              !Exact(old(gh.store).releases[id].assets, specs)
    ensures r.Done? && UniqueNames(specs) && Lasting(old(gh.store).releases[id], specs, gh.history, |old(gh.history)| - 1) ==>
              Exact(gh.store.releases[id].assets, specs)
    ensures r.Fault? ==> gh.faulty
  {
    hide Advance; hide Consistent; hide Lasting; hide Run; hide PointerView; hide Still; hide Rely; hide Exact; hide UniqueNames;
    hide Holds; hide Later; hide Names; hide Records;
    ghost var start := gh.history;
    var _ :- gh.Read();
    OwnedSame(gh.actor, old(gh.store), gh.store, id);
    var assets := gh.store.releases[id].assets;
    ghost var listed, stores := gh.store, gh.history;
    LastingExact(start, stores, id, specs);
    NotExact(assets, specs);
    if |assets| != |specs| {
      return Threw(IncompleteAssets);
    }
    var checked := EachHolds(gh, assets, specs);
    RelyTransitive(gh.actor, old(gh.store), listed, gh.store);
    OwnedSame(gh.actor, listed, gh.store, id);
    LastingBefore(old(gh.store).releases[id], specs, stores, gh.history, |start| - 1);
    LastingOn(start, stores, gh.history, id, specs);
    var _ :- checked;
    if UniqueNames(specs) {
      Pigeonhole(assets, specs);
      if Records(gh.store.releases[id], specs) {
        ExactPersists(listed.releases[id], gh.store.releases[id], specs);
      }
    }
    return Done(assets);
  }

  lemma NotExact(assets: map<string, RemoteAsset>, specs: seq<AssetSpec>)
    ensures UniqueNames(specs) && |assets| != |specs| ==> !Exact(assets, specs)
    ensures (exists i | 0 <= i < |specs| :: !Holds(assets, specs[i])) ==> !Exact(assets, specs)
  {
    if UniqueNames(specs) {
      NameCount(specs);
    }
  }

  lemma OwnedSame(actor: Actor, s: Store, s': Store, id: nat)
    requires Rely(actor, s, s') && id < |s.releases|
    ensures id < |s'.releases| && Later(s.releases[id], s'.releases[id])
    ensures Owns(actor, s'.releases[id].tag) ==> s'.releases[id] == s.releases[id]
  {
    AdvanceAt(s, s', id);
  }

  predicate Records(r: Release, specs: seq<AssetSpec>) {
    r.tag.Versioned? && |r.body.markers| == 1 && r.body.markers[0].assets == specs
  }

  /** An inventory that, once exact, stays so: a recorded one, or the pointer's while nobody moves it. */
  predicate Lasting(r: Release, specs: seq<AssetSpec>, stores: seq<Store>, n: int) {
    Records(r, specs) || (r.tag == CliLatest && Still(stores, n))
  }

  lemma LastingBefore(r: Release, specs: seq<AssetSpec>, before: seq<Store>, stores: seq<Store>, n: nat)
    requires n < |before| && before <= stores
    ensures Lasting(r, specs, stores, n) ==> Lasting(r, specs, before, n)
  {
    hide PointerView;
    if Still(stores, n) {
      StillParts(before, stores, n);
    }
  }

  lemma LastingOn(start: seq<Store>, listed: seq<Store>, stores: seq<Store>, id: nat, specs: seq<AssetSpec>)
    requires start != [] && start <= listed <= stores && id < |start[|start| - 1].releases|
    requires Advance(start[|start| - 1], listed[|listed| - 1]) && Advance(listed[|listed| - 1], stores[|stores| - 1])
    ensures id < |listed[|listed| - 1].releases| && id < |stores[|stores| - 1].releases|
    ensures Lasting(start[|start| - 1].releases[id], specs, stores, |start| - 1) ==>
              Exact(listed[|listed| - 1].releases[id].assets, specs) ==> Exact(stores[|stores| - 1].releases[id].assets, specs)
  {
    hide PointerView; hide Exact;
    AdvanceAt(start[|start| - 1], listed[|listed| - 1], id);
    AdvanceAt(listed[|listed| - 1], stores[|stores| - 1], id);
    if Still(stores, |start| - 1) {
      StillParts(listed, stores, |start| - 1);
    }
    LastingExact(listed, stores, id, specs);
  }

  lemma LastingExact(before: seq<Store>, stores: seq<Store>, id: nat, specs: seq<AssetSpec>)
    requires before != [] && before <= stores && Advance(before[|before| - 1], stores[|stores| - 1])
    requires id < |before[|before| - 1].releases|
    ensures id < |stores[|stores| - 1].releases|
    ensures var r, r' := before[|before| - 1].releases[id], stores[|stores| - 1].releases[id];
            Lasting(r, specs, stores, |before| - 1) && Exact(r.assets, specs) ==> Exact(r'.assets, specs)
  {
    var s, s' := before[|before| - 1], stores[|stores| - 1];
    AdvanceAt(s, s', id);
    var r, r' := s.releases[id], s'.releases[id];
    if Records(r, specs) && Exact(r.assets, specs) {
      ExactPersists(r, r', specs);
    } else if r.tag == CliLatest && Still(stores, |before| - 1) {
      StillParts(before, stores, |before| - 1);
      assert id in PointerView(s).0 && id in PointerView(s').0;
      assert PointerView(s).0[id] == r && PointerView(s').0[id] == r';
    }
  }

  lemma ExactPersists(r: Release, r': Release, specs: seq<AssetSpec>)
    requires Later(r, r') && Records(r', specs) && Exact(r.assets, specs)
    ensures Exact(r'.assets, specs)
  {
    forall i | 0 <= i < |specs| ensures Holds(r'.assets, specs[i]) {
      assert Holds(r.assets, specs[i]);
    }
    forall n | n in Names(specs) ensures n in r'.assets {
      var i :| 0 <= i < |specs| && specs[i].name == n;
      assert Holds(r'.assets, specs[i]);
    }
  }

  /** What a failed upload may leave behind. */
  const STUB := RemoteAsset(Starter, 0, Content(0, None))

  predicate SameAt(a: map<string, RemoteAsset>, b: map<string, RemoteAsset>, name: string) {
    (name in a <==> name in b) && (name in a ==> a[name] == b[name])
  }
}
