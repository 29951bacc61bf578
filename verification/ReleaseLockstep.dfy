/** Tagging the CLI release that goes with a desktop release, and what its verdict is worth. */
module ReleaseLockstep {
  import opened Wrappers
  import opened ReleaseStore
  import opened ReleaseSteps
  import opened ReleaseClient
  import opened ReleasePublish

  datatype Verdict = Dispatched | Finished

  /** The CLI release is out, whole, at `sha`, and the pointer records it or something newer. */
  predicate Shipped(s: Store, tag: Tag, sha: string) {
    ReleaseOut(s, tag, sha) && PointerAtLeast(s, tag.version)
  }

  predicate ReleaseOut(s: Store, tag: Tag, sha: string) {
    && tag.Versioned? && tag.stream == Cli
    && Resolve(s, tag) == Resolved(sha)
    && exists i | 0 <= i < |s.releases| :: IsFound(s.releases, tag, i) && Fulfilled(s.releases[i], Cli, tag, sha)
  }

  predicate PointerAtLeast(s: Store, v: Version) {
    exists p | 0 <= p < |s.releases| :: IsFound(s.releases, CliLatest, p) && Covers(s.releases[p], v)
  }

  predicate Covers(r: Release, v: Version) {
    !r.draft && FloorAtMost(Some(v), Floor(r))
  }

  lemma FulfilledPersists(r: Release, r': Release, tag: Tag, sha: string)
    requires Later(r, r') && Fulfilled(r, Cli, tag, sha) && tag.Versioned?
    ensures Fulfilled(r', Cli, tag, sha)
  {
    ExactPersists(r, r', r.body.markers[0].assets);
  }

  lemma PointerKept(s: Store, s': Store, v: Version)
    requires Advance(s, s') && PointerAtLeast(s, v)
    ensures PointerAtLeast(s', v)
  {
    var p :| 0 <= p < |s.releases| && IsFound(s.releases, CliLatest, p) && Covers(s.releases[p], v);
    FoundPersists(s, s', CliLatest, p);
    AdvanceAt(s, s', p);
    assert Covers(s'.releases[p], v);
  }

  /** Nothing any of the three operations does, however interleaved or cut, unships a release. */
  lemma ShippedForever(s: Store, s': Store, tag: Tag, sha: string)
    requires Advance(s, s') && Shipped(s, tag, sha)
    ensures Shipped(s', tag, sha)
  {
    OutForever(s, s', tag, sha);
    PointerKept(s, s', tag.version);
  }

  lemma OutForever(s: Store, s': Store, tag: Tag, sha: string)
    requires Advance(s, s') && ReleaseOut(s, tag, sha)
    ensures ReleaseOut(s', tag, sha)
  {
    ResolvePersists(s, s', tag);
    var i :| 0 <= i < |s.releases| && IsFound(s.releases, tag, i) && Fulfilled(s.releases[i], Cli, tag, sha);
    FoundPersists(s, s', tag, i);
    AdvanceAt(s, s', i);
    FulfilledPersists(s.releases[i], s'.releases[i], tag, sha);
  }

  // ---------- nothing left to do ----------

  /** The pointer is out, and its complete record names this version or a newer one. */
  predicate PointerOut(s: Store, v: Version) {
    exists p | 0 <= p < |s.releases| :: IsFound(s.releases, CliLatest, p) && OutAt(s.releases[p], v)
  }

  predicate OutAt(r: Release, v: Version) {
    && !r.draft && r.prerelease && ReadState(r.body).Some?
    && var st := ReadState(r.body).value;
    && st.phase == Complete && st.tag.Versioned? && AtMost(v, st.tag.version)
  }

  /** The pointer is out, and if its record is of this tag, it is of this commit. */
  predicate NamedAt(s: Store, p: nat, tag: Tag, sha: string)
    requires p < |s.releases| && tag.Versioned?
  {
    && OutAt(s.releases[p], tag.version)
    && var st := ReadState(s.releases[p].body).value;
    st.tag.stream == Cli && (st.tag == tag ==> st.sha == sha)
  }

  /** Everything that is confirmed of the pointer before a release is reported as finished. */
  predicate ConfirmedAt(s: Store, p: nat, tag: Tag, sha: string)
    requires p < |s.releases| && tag.Versioned?
  {
    && OutAt(s.releases[p], tag.version)
    && var st := ReadState(s.releases[p].body).value;
    && st.tag.stream == Cli && (st.tag == tag ==> st.sha == sha)
    && Resolve(s, st.tag) == Resolved(st.sha) && Resolve(s, CliLatest) == Resolved(st.sha)
    && Exact(s.releases[p].assets, st.assets) && UniqueNames(st.assets) && ValidSha(st.sha)
  }

  predicate Confirmed(s: Store, tag: Tag, sha: string) {
    tag.Versioned? && exists p | 0 <= p < |s.releases| :: IsFound(s.releases, CliLatest, p) && ConfirmedAt(s, p, tag, sha)
  }

  /** In a consistent store a complete pointer needs no more confirmation. */
  lemma OutIsConfirmed(s: Store, tag: Tag, sha: string)
    requires Consistent(s) && Shipped(s, tag, sha) && PointerOut(s, tag.version)
    ensures Confirmed(s, tag, sha)
  {
    hide Fulfilled;
    var p :| 0 <= p < |s.releases| && IsFound(s.releases, CliLatest, p) && OutAt(s.releases[p], tag.version);
    assert PointerSound(s, p);
    var st := ReadState(s.releases[p].body).value;
    assert UniqueNames(st.assets) && ValidSha(st.sha);
    assert ConfirmedAt(s, p, tag, sha);
  }

  lemma ConfirmedFound(s: Store, tag: Tag, sha: string, p: nat)
    requires Confirmed(s, tag, sha) && IsFound(s.releases, CliLatest, p)
    ensures ConfirmedAt(s, p, tag, sha)
  {
    hide ConfirmedAt;
    var q :| 0 <= q < |s.releases| && IsFound(s.releases, CliLatest, q) && ConfirmedAt(s, q, tag, sha);
    FoundUnique(s.releases, CliLatest, p, q);
  }

  /** While nobody moves the pointer, it stays confirmed. */
  lemma ConfirmedStays(before: seq<Store>, stores: seq<Store>, n: nat, tag: Tag, sha: string)
    requires n < |before| && before <= stores && Advance(before[|before| - 1], stores[|stores| - 1])
    ensures Still(stores, n) ==> Still(before, n) && Still(stores, |before| - 1)
    ensures Still(stores, n) && Confirmed(before[|before| - 1], tag, sha) ==>
              Confirmed(stores[|stores| - 1], tag, sha)
  {
    hide PointerView; hide IsFound; hide Exact; hide ReadState; hide Resolve;
    if Still(stores, n) {
      StillParts(before, stores, n);
      var s, s' := before[|before| - 1], stores[|stores| - 1];
      SameView(s, s');
      if Confirmed(s, tag, sha) {
        var p :| 0 <= p < |s.releases| && IsFound(s.releases, CliLatest, p) && ConfirmedAt(s, p, tag, sha);
        AdvanceAt(s, s', p);
        ResolvedStays(s, s', ReadState(s.releases[p].body).value.tag);
        assert IsFound(s'.releases, CliLatest, p) && ConfirmedAt(s', p, tag, sha);
      }
    }
  }

  lemma ResolvedStays(s: Store, s': Store, tag: Tag)
    requires Advance(s, s') && tag != CliLatest
    ensures Resolve(s, tag).Resolved? ==> Resolve(s', tag) == Resolve(s, tag)
  {
  }

  // ---------- something left to do ----------

  /** There is no release for the tag, or a draft or a pending one of this commit. */
  ghost predicate Unfinished(s: Store, tag: Tag, sha: string) {
    IsAbsent(s.releases, tag) || exists i: nat :: IsFound(s.releases, tag, i) && UnfinishedAt(s.releases[i], tag, sha)
  }

  predicate UnfinishedAt(r: Release, tag: Tag, sha: string) {
    && r.prerelease && ReadState(r.body).Some?
    && var st := ReadState(r.body).value;
    && st.tag == tag && st.sha == sha && (r.draft || st.phase == Pending)
  }

  /** What is unfinished in the end was never finished. */
  lemma UnfinishedBefore(s: Store, s': Store, tag: Tag, sha: string)
    requires Advance(s, s') && tag.Versioned? && Unfinished(s', tag, sha)
    ensures Unfinished(s, tag, sha)
  {
    forall j | 0 <= j < |s.releases| ensures Later(s.releases[j], s'.releases[j]) {
      AdvanceAt(s, s', j);
    }
    if !IsAbsent(s.releases, tag) {
      var j :| 0 <= j < |s.releases| && s.releases[j].tag == tag;
      assert s'.releases[j].tag == tag;
      var i: nat :| IsFound(s'.releases, tag, i) && UnfinishedAt(s'.releases[i], tag, sha);
      assert i >= |s.releases| ==> Sole(s'.releases, i);
      UnfinishedStep(s.releases[i], s'.releases[i], tag, sha);
      FoundBefore(s, s', tag, i);
    }
  }

  lemma UnfinishedStep(r: Release, r': Release, tag: Tag, sha: string)
    requires Later(r, r') && r.tag == tag && tag.Versioned? && UnfinishedAt(r', tag, sha)
    ensures UnfinishedAt(r, tag, sha)
  {
  }

  lemma FoundBefore(s: Store, s': Store, tag: Tag, i: nat)
    requires Advance(s, s') && i < |s.releases| && IsFound(s'.releases, tag, i)
    ensures IsFound(s.releases, tag, i)
  {
    forall j | 0 <= j < |s.releases| ensures Later(s.releases[j], s'.releases[j]) {
      AdvanceAt(s, s', j);
    }
    if s'.releases[i].draft {
      assert forall j | 0 <= j < |s.releases| && j != i :: s'.releases[j].tag != s'.releases[i].tag;
    } else if !s.releases[i].draft {
      forall j | 0 <= j < i ensures !PublishedAs(s.releases, tag, j) {
        assert !PublishedAs(s'.releases, tag, j);
      }
    }
  }

  lemma UnfinishedFound(s: Store, tag: Tag, sha: string, id: nat)
    requires IsFound(s.releases, tag, id)
    ensures id < |s.releases|
    ensures Unfinished(s, tag, sha) <==> UnfinishedAt(s.releases[id], tag, sha)
  {
    forall i: nat | IsFound(s.releases, tag, i) ensures i == id {
      FoundUnique(s.releases, tag, i, id);
    }
  }

  /** There is no pointer, or one that is not out, not complete or at an older version. */
  ghost predicate Lagging(s: Store, v: Version) {
    IsAbsent(s.releases, CliLatest) || exists p: nat :: IsFound(s.releases, CliLatest, p) && LaggingAt(s.releases[p], v)
  }

  predicate LaggingAt(r: Release, v: Version) {
    || r.draft
    || (&& r.prerelease && ReadState(r.body).Some?
        && var st := ReadState(r.body).value;
        st.phase == Pending || (st.tag.Versioned? && st.tag.stream == Cli && !AtMost(v, st.tag.version)))
  }

  lemma LaggingStays(before: seq<Store>, stores: seq<Store>, n: nat, v: Version)
    requires n < |before| && before <= stores && Advance(before[|before| - 1], stores[|stores| - 1])
    ensures Still(stores, n) && Lagging(before[|before| - 1], v) ==> Lagging(stores[|stores| - 1], v)
  {
    hide PointerView; hide IsFound; hide IsAbsent; hide LaggingAt;
    if Still(stores, n) && Lagging(before[|before| - 1], v) {
      StillParts(before, stores, n);
      SameView(before[|before| - 1], stores[|stores| - 1]);
    }
  }

  lemma LaggingFound(s: Store, v: Version, p: nat)
    requires IsFound(s.releases, CliLatest, p)
    ensures p < |s.releases| && (Lagging(s, v) <==> LaggingAt(s.releases[p], v))
  {
    forall i: nat | IsFound(s.releases, CliLatest, i) ensures i == p {
      FoundUnique(s.releases, CliLatest, i, p);
    }
  }

  lemma LaggingLookedUp(s: Store, v: Version)
    ensures Lagging(s, v) ==> IsAbsent(s.releases, CliLatest) || exists p: nat :: IsFound(s.releases, CliLatest, p)
  {
  }

  /** After number `n`, nobody but this connection created the tag. */
  predicate OnlyMine(stores: seq<Store>, mine: set<nat>, n: int, tag: Tag) {
    forall i: nat | 0 <= n < i < |stores| && tag !in stores[i - 1].tags && tag in stores[i].tags :: i in mine
  }

  lemma {:induction false} NotByOthers(stores: seq<Store>, mine: set<nat>, n: nat, m: nat, tag: Tag)
    requires n <= m < |stores| && tag !in stores[n].tags && OnlyMine(stores, mine, n, tag)
    requires forall i | i in mine :: i <= n || i > m
    ensures tag !in stores[m].tags
    decreases m
  {
    if n < m {
      NotByOthers(stores, mine, n, m - 1, tag);
    }
  }

  lemma MineBefore(before: seq<Store>, mineBefore: set<nat>, stores: seq<Store>, mine: set<nat>, n: nat, tag: Tag)
    requires n < |before| && before <= stores && OnlyMine(stores, mine, n, tag)
    requires forall i | i in mine && i < |before| :: i in mineBefore
    ensures OnlyMine(before, mineBefore, n, tag) && OnlyMine(stores, mine, |before| - 1, tag)
  {
    forall i: nat | n < i < |before| && tag !in before[i - 1].tags && tag in before[i].tags ensures i in mineBefore {
      assert before[i - 1] == stores[i - 1] && before[i] == stores[i];
    }
  }

  /** Whether everything is out already, so that a run has nothing to dispatch. */
  predicate AllOut(s: Store, desktopTag: Tag, sha: string) {
    && desktopTag.Versioned? && desktopTag.stream == Desktop && Resolve(s, desktopTag) == Resolved(sha)
    && Shipped(s, Versioned(Cli, desktopTag.version), sha) && PointerOut(s, desktopTag.version)
  }

  /** The tag is at the commit, or missing and created by nobody else. */
  predicate TagAtHand(s: Store, stores: seq<Store>, mine: set<nat>, n: int, tag: Tag, sha: string) {
    Resolve(s, tag) == Resolved(sha) || (tag !in s.tags && OnlyMine(stores, mine, n, tag))
  }

  /** The release is out and the pointer is not there yet. */
  ghost predicate Waiting(s: Store, tag: Tag, sha: string) {
    ReleaseOut(s, tag, sha) && Lagging(s, tag.version)
  }

  method DispatchLockstep(gh: GitHub, desktopTag: Tag, sha: string) returns (r: Outcome<Verdict>)
    requires gh.Valid() && gh.actor == Lockstep
    modifies gh`store, gh`history, gh`mine
    ensures gh.Continues()
    ensures r.Done? ==>
              && desktopTag.Versioned? && desktopTag.stream == Desktop
              && Resolve(gh.store, desktopTag) == Resolved(sha)
              && Resolve(gh.store, Versioned(Cli, desktopTag.version)) == Resolved(sha)
    ensures r == Done(Finished) ==> Shipped(gh.store, Versioned(Cli, desktopTag.version), sha)
    ensures r == Done(Dispatched) ==>
              && |gh.store.dispatched| > |old(gh.store).dispatched|
              && gh.store.dispatched[|gh.store.dispatched| - 1] == Versioned(Cli, desktopTag.version)
    ensures Consistent(old(gh.store)) && AllOut(old(gh.store), desktopTag, sha) && Still(gh.history, |old(gh.history)| - 1) ==>
              r.Fault? || r == Done(Finished)
    ensures && desktopTag.Versioned? && desktopTag.stream == Desktop && Resolve(old(gh.store), desktopTag) == Resolved(sha)
            && TagAtHand(old(gh.store), gh.history, gh.mine, |old(gh.history)| - 1, Versioned(Cli, desktopTag.version), sha) ==>
              && (Unfinished(gh.store, Versioned(Cli, desktopTag.version), sha) ==> r.Fault? || r == Done(Dispatched))
              && (Waiting(old(gh.store), Versioned(Cli, desktopTag.version), sha) && Still(gh.history, |old(gh.history)| - 1) ==>
                    r.Fault? || r == Done(Dispatched))
    ensures r == Done(Finished) && Still(gh.history, |old(gh.history)| - 1) ==>
              Confirmed(gh.store, Versioned(Cli, desktopTag.version), sha)
    ensures r.Fault? ==> gh.faulty
  {
    hide Advance; hide Consistent; hide Resolve; hide Rely; hide Shipped; hide Still; hide Confirmed; hide PointerOut;
    hide ValidSha; hide AllOut; hide Unfinished; hide Waiting; hide TagAtHand; hide OnlyMine;
    AllReady(gh.store, desktopTag, sha);
    if !(desktopTag.Versioned? && desktopTag.stream == Desktop) {
      return Threw(InvalidTag);
    }
    var cliTag := Versioned(Cli, desktopTag.version);
    ghost var h0, m0 := gh.history, gh.mine;
    var settled := SettleTags(gh, desktopTag, cliTag, sha);
    ghost var h1, m1 := gh.history, gh.mine;
    StillReady(h0, h1, |h0| - 1, cliTag, sha);
    WaitingStays(h0, h1, |h0| - 1, cliTag, sha);
    AtHandBefore(h0[|h0| - 1], h1, m1, h1, m1, |h0| - 1, cliTag, sha);
    DispatchedGrows(h0[|h0| - 1], h1[|h1| - 1]);
    var _ :- settled;
    r := FinishOrDispatch(gh, desktopTag, cliTag, sha);
    StillReady(h1, gh.history, |h0| - 1, cliTag, sha);
    AtHandBefore(h0[|h0| - 1], h1, m1, gh.history, gh.mine, |h0| - 1, cliTag, sha);
  }

  /** Both tags at the commit: the desktop one must be there, the cli one is created if it is missing. */
  method SettleTags(gh: GitHub, desktopTag: Tag, cliTag: Tag, sha: string) returns (r: Outcome<Unit>)
    requires gh.Valid() && gh.actor == Lockstep && desktopTag.Versioned? && cliTag.Versioned?
    modifies gh`store, gh`history, gh`mine
    ensures gh.Continues()
    ensures r.Done? ==> Resolve(gh.store, desktopTag) == Resolve(gh.store, cliTag) == Resolved(sha)
    ensures Resolve(old(gh.store), desktopTag) == Resolved(sha) ==>
              TagAtHand(old(gh.store), gh.history, gh.mine, |old(gh.history)| - 1, cliTag, sha) ==> !r.Threw?
    ensures r.Fault? ==> gh.faulty
  {
    hide Advance; hide Consistent; hide Resolve; hide Rely; hide ValidSha; hide TagAtHand; hide OnlyMine;
    ghost var start, m0 := gh.history, gh.mine;
    ResolvedValid(gh.store, desktopTag, sha);
    var _ :- AssertTag(gh, desktopTag, sha);
    ghost var s0, h0 := gh.store, gh.history;
    r := EnsureTag(gh, cliTag, sha);
    ResolvePersists(s0, gh.store, desktopTag);
    AtHandStays(h0, m0, gh.history, gh.mine, |start| - 1, cliTag, sha);
  }

  lemma WaitingStays(before: seq<Store>, stores: seq<Store>, n: nat, tag: Tag, sha: string)
    requires n < |before| && before <= stores && Advance(before[|before| - 1], stores[|stores| - 1])
    ensures Still(stores, n) && Waiting(before[|before| - 1], tag, sha) ==> Waiting(stores[|stores| - 1], tag, sha)
  {
    hide Advance; hide Still; hide Lagging;
    if Still(stores, n) && Waiting(before[|before| - 1], tag, sha) {
      LaggingStays(before, stores, n, tag.version);
      OutForever(before[|before| - 1], stores[|stores| - 1], tag, sha);
    }
  }

  lemma AtHandBefore(s: Store, before: seq<Store>, mineBefore: set<nat>, stores: seq<Store>, mine: set<nat>, n: nat, tag: Tag, sha: string)
    requires n < |before| && before <= stores && forall i | i in mine && i < |before| :: i in mineBefore
    ensures TagAtHand(s, stores, mine, n, tag, sha) ==> TagAtHand(s, before, mineBefore, n, tag, sha)
    ensures Resolve(s, tag) == Resolved(sha) ==> TagAtHand(s, stores, mine, n, tag, sha)
  {
    hide OnlyMine;
    if OnlyMine(stores, mine, n, tag) {
      MineBefore(before, mineBefore, stores, mine, n, tag);
    }
  }

  lemma ResolvedValid(s: Store, tag: Tag, sha: string)
    ensures Resolve(s, tag) == Resolved(sha) ==> ValidSha(sha)
  {
  }

  /** A tag at hand at the start is still at hand when it is asked for. */
  lemma AtHandStays(before: seq<Store>, mineBefore: set<nat>, stores: seq<Store>, mine: set<nat>, n: nat, tag: Tag, sha: string)
    requires n < |before| && before <= stores && Advance(before[n], before[|before| - 1]) && tag != CliLatest
    requires forall i | i in mineBefore :: i <= n
    requires forall i | i in mine && i < |before| :: i in mineBefore
    ensures TagAtHand(before[n], stores, mine, n, tag, sha) ==>
              var s := before[|before| - 1];
              Resolve(s, tag) == Resolved(sha) || (tag !in s.tags && OnlyMine(stores, mine, |before| - 1, tag))
  {
    hide Advance; hide OnlyMine;
    if Resolve(before[n], tag) == Resolved(sha) {
      ResolvePersists(before[n], before[|before| - 1], tag);
    } else if TagAtHand(before[n], stores, mine, n, tag, sha) {
      MineBefore(before, mineBefore, stores, mine, n, tag);
      NotByOthers(before, mineBefore, n, |before| - 1, tag);
    }
  }

  /** With both tags in place, asks the publisher for the release unless everything is out. */
  method FinishOrDispatch(gh: GitHub, desktopTag: Tag, cliTag: Tag, sha: string) returns (r: Outcome<Verdict>)
    requires gh.Valid() && gh.actor == Lockstep && desktopTag.Versioned? && cliTag.Versioned? && cliTag.stream == Cli
    requires Resolve(gh.store, desktopTag) == Resolve(gh.store, cliTag) == Resolved(sha)
    modifies gh`store, gh`history, gh`mine
    ensures gh.Continues()
    ensures Resolve(gh.store, desktopTag) == Resolve(gh.store, cliTag) == Resolved(sha)
    ensures r == Done(Finished) ==> Shipped(gh.store, cliTag, sha)
    ensures r == Done(Dispatched) ==>
              && |gh.store.dispatched| > |old(gh.store).dispatched|
              && gh.store.dispatched[|gh.store.dispatched| - 1] == cliTag
    ensures Unfinished(gh.store, cliTag, sha) ==> r.Fault? || r == Done(Dispatched)
    ensures Waiting(old(gh.store), cliTag, sha) && Still(gh.history, |old(gh.history)| - 1) ==> r.Fault? || r == Done(Dispatched)
    ensures Shipped(old(gh.store), cliTag, sha) && Confirmed(old(gh.store), cliTag, sha) && Still(gh.history, |old(gh.history)| - 1) ==>
              r.Fault? || r == Done(Finished)
    ensures r == Done(Finished) && Still(gh.history, |old(gh.history)| - 1) ==> Confirmed(gh.store, cliTag, sha)
    ensures r.Fault? ==> gh.faulty
  {
    hide Advance; hide Consistent; hide Resolve; hide Rely; hide Shipped; hide Still; hide Confirmed; hide Unfinished; hide ReleaseOut;
    hide Lagging;
    ghost var s1, h1 := gh.store, gh.history;
    var checked := CheckShipped(gh, cliTag, sha);
    ResolvePersists(s1, gh.store, desktopTag);
    ResolvePersists(s1, gh.store, cliTag);
    var shipped :- checked;
    if shipped {
      return Done(Finished);
    }
    ghost var s2, h2 := gh.store, gh.history;
    gh.Interfere();
    ghost var before := gh.store;
    DispatchPermitted(gh.store, cliTag);
    var next := gh.store.(dispatched := gh.store.dispatched + [cliTag]);
    var sent := gh.Send(next);
    ResolvePersists(s2, gh.store, desktopTag);
    ResolvePersists(s2, gh.store, cliTag);
    StillReady(h2, gh.history, |h1| - 1, cliTag, sha);
    DispatchedGrows(s1, s2);
    DispatchedGrows(s2, before);
    if Unfinished(gh.store, cliTag, sha) {
      UnfinishedBefore(s2, gh.store, cliTag, sha);
    }
    var _ :- sent;
    return Done(Dispatched);
  }

  lemma DispatchedGrows(s: Store, s': Store)
    requires Advance(s, s')
    ensures |s.dispatched| <= |s'.dispatched|
  {
  }

  lemma AllReady(s: Store, desktopTag: Tag, sha: string)
    ensures AllOut(s, desktopTag, sha) ==>
              && desktopTag.Versioned? && desktopTag.stream == Desktop && Resolve(s, desktopTag) == Resolved(sha)
              && var cliTag := Versioned(Cli, desktopTag.version);
              && Shipped(s, cliTag, sha) && Resolve(s, cliTag) == Resolved(sha) && ValidSha(sha)
              && (Consistent(s) ==> Confirmed(s, cliTag, sha))
  {
    hide Consistent; hide Confirmed; hide Shipped; hide PointerOut;
    if AllOut(s, desktopTag, sha) {
      ShippedTag(s, Versioned(Cli, desktopTag.version), sha);
      if Consistent(s) {
        OutIsConfirmed(s, Versioned(Cli, desktopTag.version), sha);
      }
    }
  }

  lemma ShippedTag(s: Store, tag: Tag, sha: string)
    requires Shipped(s, tag, sha)
    ensures Resolve(s, tag) == Resolved(sha) && ValidSha(sha)
  {
  }

  /** What was shipped and confirmed is so still. */
  lemma StillReady(before: seq<Store>, stores: seq<Store>, n: nat, tag: Tag, sha: string)
    requires n < |before| && before <= stores && Advance(before[|before| - 1], stores[|stores| - 1])
    ensures Still(stores, n) ==> Still(before, n) && Still(stores, |before| - 1)
    ensures var s, s' := before[|before| - 1], stores[|stores| - 1];
            && (Shipped(s, tag, sha) ==> Shipped(s', tag, sha) && Resolve(s', tag) == Resolved(sha))
            && (ReleaseOut(s, tag, sha) ==> ReleaseOut(s', tag, sha))
            && (Still(stores, n) && Confirmed(s, tag, sha) ==> Confirmed(s', tag, sha))
  {
    hide Advance; hide Confirmed; hide Still;
    ConfirmedStays(before, stores, n, tag, sha);
    if Shipped(before[|before| - 1], tag, sha) {
      ShippedForever(before[|before| - 1], stores[|stores| - 1], tag, sha);
    }
    if ReleaseOut(before[|before| - 1], tag, sha) {
      OutForever(before[|before| - 1], stores[|stores| - 1], tag, sha);
    }
  }

  /** Creates the CLI tag if it is missing; a tag at another commit is never moved. */
  method EnsureTag(gh: GitHub, cliTag: Tag, sha: string) returns (r: Outcome<Unit>)
    requires gh.Valid() && gh.actor == Lockstep && cliTag.Versioned?
    modifies gh`store, gh`history, gh`mine
    ensures gh.Continues()
    ensures r.Done? ==> Resolve(gh.store, cliTag) == Resolved(sha)
    ensures Resolve(old(gh.store), cliTag) == Resolved(sha) && ValidSha(sha) ==> !r.Threw?
    ensures cliTag !in old(gh.store).tags && ValidSha(sha) && OnlyMine(gh.history, gh.mine, |old(gh.history)| - 1, cliTag) ==> !r.Threw?
    ensures r.Fault? ==> gh.faulty
  {
    hide Advance; hide Consistent; hide Rely; hide Resolve;
    hide OnlyMine;
    ghost var s, n := gh.store, |gh.history| - 1;
    var resolved := ResolveTag(gh, cliTag);
    Uncreated(gh.history, gh.mine, n, cliTag);
    if Resolve(s, cliTag) == Resolved(sha) {
      ResolvePersists(s, gh.store, cliTag);
    }
    var existing :- resolved;
    if existing.Some? && existing != Some(sha) {
      return Threw(TagOwned);
    }
    if existing.None? {
      gh.Interfere();
      Uncreated(gh.history, gh.mine, n, cliTag);
      if cliTag in gh.store.tags {
        return Threw(AlreadyExists);
      }
      TagVersioned(gh.store, cliTag, sha);
      TagThere(gh.store, cliTag, sha);
      var _ :- gh.Send(Tagged(gh.store, cliTag, sha));
    }
    r := AssertTag(gh, cliTag, sha);
  }

  /** A tag nobody else creates is still missing before this connection does. */
  lemma Uncreated(stores: seq<Store>, mine: set<nat>, n: nat, tag: Tag)
    requires n < |stores| && forall i | i in mine :: i <= n
    ensures tag !in stores[n].tags && OnlyMine(stores, mine, n, tag) ==>
              tag !in stores[|stores| - 1].tags && Resolve(stores[|stores| - 1], tag) == Missing
  {
    if tag !in stores[n].tags && OnlyMine(stores, mine, n, tag) {
      NotByOthers(stores, mine, n, |stores| - 1, tag);
    }
  }

  lemma TagThere(s: Store, tag: Tag, sha: string)
    ensures ValidSha(sha) ==> Resolve(Tagged(s, tag, sha), tag) == Resolved(sha)
  {
  }

  /** Whether everything is out already; every part checked stays true while the rest is read. */
  method CheckShipped(gh: GitHub, cliTag: Tag, sha: string) returns (r: Outcome<bool>)
    requires gh.Valid() && gh.actor == Lockstep && cliTag.Versioned? && cliTag.stream == Cli
    requires Resolve(gh.store, cliTag) == Resolved(sha)
    modifies gh`store, gh`history, gh`mine
    ensures gh.Continues()
    ensures r == Done(true) ==> Shipped(gh.store, cliTag, sha)
    ensures Shipped(old(gh.store), cliTag, sha) && Confirmed(old(gh.store), cliTag, sha) && Still(gh.history, |old(gh.history)| - 1) ==>
              r.Fault? || r == Done(true)
    ensures Unfinished(gh.store, cliTag, sha) ==> r.Fault? || r == Done(false)
    ensures Waiting(old(gh.store), cliTag, sha) && Still(gh.history, |old(gh.history)| - 1) ==> r.Fault? || r == Done(false)
    ensures r == Done(true) && Still(gh.history, |old(gh.history)| - 1) ==> Confirmed(gh.store, cliTag, sha)
    ensures r.Fault? ==> gh.faulty
  {
    hide Advance; hide Consistent; hide Resolve; hide Rely; hide Sole; hide PublishedAs; hide Exact; hide Still; hide Confirmed;
    hide Shipped; hide IsFound; hide PointerAtLeast; hide ReleaseOut; hide Lagging; hide IsAbsent; hide Fulfilled; hide Unfinished;
    ghost var s0, h0 := gh.store, gh.history;
    var looked := ReleaseFor(gh, cliTag);
    ResolvePersists(s0, gh.store, cliTag);
    ghost var s1, h1 := gh.store, gh.history;
    StillReady(h0, h1, |h0| - 1, cliTag, sha);
    ShippedLookedUp(s1, cliTag, sha);
    LaggingStays(h0, h1, |h0| - 1, cliTag.version);
    var found :- looked;
    if found.None? {
      return Done(false);
    }
    var id := found.value;
    ShippedFound(s1, cliTag, sha, id);
    UnfinishedFound(s1, cliTag, sha, id);
    var release := gh.store.releases[id];
    if ReadState(release.body).None? {
      return Threw(NoProvenance);
    }
    var st := ReadState(release.body).value;
    if st.tag != cliTag || st.sha != sha {
      return Threw(ProvenanceConflict);
    }
    if !release.prerelease {
      return Threw(WrongChannel);
    }
    if release.draft || st.phase != Complete {
      return Done(false);
    }
    var verified := VerifiedAssets(gh, id, st.assets);
    ResolvePersists(s1, gh.store, cliTag);
    FoundPersists(s1, gh.store, cliTag, id);
    ghost var h2 := gh.history;
    StillReady(h1, h2, |h0| - 1, cliTag, sha);
    LaggingStays(h1, h2, |h0| - 1, cliTag.version);
    if Unfinished(gh.store, cliTag, sha) {
      UnfinishedBefore(s1, gh.store, cliTag, sha);
    }
    var _ :- verified;
    VerifiedFulfilled(s1.releases[id], s1, gh.store, id, cliTag, sha);
    r := CheckPointer(gh, cliTag, sha, id);
    StillReady(h2, gh.history, |h0| - 1, cliTag, sha);
    if Unfinished(gh.store, cliTag, sha) {
      UnfinishedBefore(s1, gh.store, cliTag, sha);
    }
  }

  lemma ShippedLookedUp(s: Store, tag: Tag, sha: string)
    ensures Shipped(s, tag, sha) ==> ReleaseOut(s, tag, sha)
    ensures ReleaseOut(s, tag, sha) || Unfinished(s, tag, sha) ==> IsAbsent(s.releases, tag) || exists i: nat :: IsFound(s.releases, tag, i)
    ensures ReleaseOut(s, tag, sha) ==> !IsAbsent(s.releases, tag)
    ensures IsAbsent(s.releases, tag) ==> Unfinished(s, tag, sha)
  {
  }

  lemma ShippedFound(s: Store, tag: Tag, sha: string, id: nat)
    requires IsFound(s.releases, tag, id)
    ensures id < |s.releases| && s.releases[id].tag == tag
    ensures ReleaseOut(s, tag, sha) ==>
              && Fulfilled(s.releases[id], Cli, tag, sha) && !s.releases[id].draft && s.releases[id].prerelease
              && ReadState(s.releases[id].body).Some?
              && var st := ReadState(s.releases[id].body).value;
              && st.tag == tag && st.sha == sha && st.phase == Complete
              && UniqueNames(st.assets) && Records(s.releases[id], st.assets) && Exact(s.releases[id].assets, st.assets)
  {
    if ReleaseOut(s, tag, sha) {
      var i :| 0 <= i < |s.releases| && IsFound(s.releases, tag, i) && Fulfilled(s.releases[i], Cli, tag, sha);
      FoundUnique(s.releases, tag, i, id);
    }
  }

  lemma VerifiedFulfilled(r: Release, s: Store, s': Store, id: nat, tag: Tag, sha: string)
    requires Advance(s, s') && id < |s.releases| && s.releases[id] == r && r.tag == tag && tag.Versioned?
    requires !r.draft && r.prerelease && ReadState(r.body).Some?
    requires var st := ReadState(r.body).value;
             && st.tag == tag && st.sha == sha && st.phase == Complete
             && (Records(s'.releases[id], st.assets) ==> Exact(s'.releases[id].assets, st.assets))
    ensures Fulfilled(s'.releases[id], Cli, tag, sha)
  {
    AdvanceAt(s, s', id);
  }

  method CheckPointer(gh: GitHub, cliTag: Tag, sha: string, id: nat) returns (r: Outcome<bool>)
    requires gh.Valid() && gh.actor == Lockstep && cliTag.Versioned? && cliTag.stream == Cli
    requires Resolve(gh.store, cliTag) == Resolved(sha)
    requires IsFound(gh.store.releases, cliTag, id) && Fulfilled(gh.store.releases[id], Cli, cliTag, sha)
    modifies gh`store, gh`history, gh`mine
    ensures gh.Continues()
    ensures r == Done(true) ==> Shipped(gh.store, cliTag, sha)
    ensures Confirmed(old(gh.store), cliTag, sha) && Still(gh.history, |old(gh.history)| - 1) ==> r.Fault? || r == Done(true)
    ensures Lagging(old(gh.store), cliTag.version) && Still(gh.history, |old(gh.history)| - 1) ==> r.Fault? || r == Done(false)
    ensures r == Done(true) && Still(gh.history, |old(gh.history)| - 1) ==> Confirmed(gh.store, cliTag, sha)
    ensures r.Fault? ==> gh.faulty
  {
    hide Advance; hide Consistent; hide Resolve; hide Rely; hide Sole; hide PublishedAs; hide Exact; hide Fulfilled;
    hide Still; hide Confirmed; hide IsFound; hide Shipped; hide PointerAtLeast; hide IsAbsent; hide Lagging;
    ghost var s0, h0 := gh.store, gh.history;
    var looked := ReleaseFor(gh, CliLatest);
    ghost var h1 := gh.history;
    StillReady(h0, h1, |h0| - 1, cliTag, sha);
    ConfirmedLookedUp(gh.store, cliTag, sha);
    LaggingStays(h0, h1, |h0| - 1, cliTag.version);
    LaggingLookedUp(gh.store, cliTag.version);
    var found :- looked;
    if found.None? {
      return Done(false);
    }
    var p := found.value;
    LookedUp(gh.store, cliTag, sha, p);
    LaggingFound(gh.store, cliTag.version, p);
    var pointer := gh.store.releases[p];
    if pointer.draft {
      return Done(false);
    }
    if !pointer.prerelease {
      return Threw(WrongChannel);
    }
    if ReadState(pointer.body).None? {
      return Threw(NoProvenance);
    }
    var st := ReadState(pointer.body).value;
    if st.phase != Complete {
      return Done(false);
    }
    if !(st.tag.Versioned? && st.tag.stream == Cli) {
      return Threw(InvalidTag);
    }
    if !AtMost(cliTag.version, st.tag.version) {
      return Done(false);
    }
    PointerCovers(gh.store, p, cliTag.version);
    NowShipped(s0, gh.store, cliTag, sha, id);
    if st.tag == cliTag && st.sha != sha {
      return Threw(ProvenanceConflict);
    }
    ghost var s1 := gh.store;
    r := ConfirmPointer(gh, cliTag, sha, p, st);
    FoundPersists(s1, gh.store, CliLatest, p);
    ConfirmedHere(gh.store, p, cliTag, sha);
    StillReady(h1, gh.history, |h0| - 1, cliTag, sha);
  }

  lemma ConfirmedHere(s: Store, p: nat, tag: Tag, sha: string)
    requires tag.Versioned? && IsFound(s.releases, CliLatest, p) && p < |s.releases|
    ensures ConfirmedAt(s, p, tag, sha) ==> Confirmed(s, tag, sha)
  {
  }

  lemma PointerCovers(s: Store, p: nat, v: Version)
    requires IsFound(s.releases, CliLatest, p) && Covers(s.releases[p], v)
    ensures PointerAtLeast(s, v)
  {
  }

  lemma ConfirmedLookedUp(s: Store, tag: Tag, sha: string)
    ensures Confirmed(s, tag, sha) ==> !IsAbsent(s.releases, CliLatest) && exists p: nat :: IsFound(s.releases, CliLatest, p)
  {
  }

  lemma LookedUp(s: Store, tag: Tag, sha: string, p: nat)
    requires IsFound(s.releases, CliLatest, p)
    ensures p < |s.releases| && s.releases[p].tag == CliLatest
    ensures Confirmed(s, tag, sha) ==> tag.Versioned? && ConfirmedAt(s, p, tag, sha)
  {
    if Confirmed(s, tag, sha) {
      ConfirmedFound(s, tag, sha, p);
    }
  }

  lemma NowShipped(s: Store, s': Store, tag: Tag, sha: string, id: nat)
    requires Advance(s, s') && tag.Versioned? && tag.stream == Cli && Resolve(s, tag) == Resolved(sha)
    requires IsFound(s.releases, tag, id) && Fulfilled(s.releases[id], Cli, tag, sha)
    requires PointerAtLeast(s', tag.version)
    ensures Shipped(s', tag, sha)
  {
    ResolvePersists(s, s', tag);
    FoundPersists(s, s', tag, id);
    AdvanceAt(s, s', id);
    FulfilledPersists(s.releases[id], s'.releases[id], tag, sha);
  }

  method ConfirmPointer(gh: GitHub, cliTag: Tag, sha: string, p: nat, st: Provenance) returns (r: Outcome<bool>)
    requires gh.Valid() && gh.actor == Lockstep && p < |gh.store.releases| && Shipped(gh.store, cliTag, sha)
    requires gh.store.releases[p].tag == CliLatest && ReadState(gh.store.releases[p].body) == Some(st)
    requires st.tag.Versioned? && cliTag.Versioned?
    modifies gh`store, gh`history, gh`mine
    ensures gh.Continues() && Shipped(gh.store, cliTag, sha)
    ensures r.Done? ==> r.value
    ensures ConfirmedAt(old(gh.store), p, cliTag, sha) && Still(gh.history, |old(gh.history)| - 1) ==> !r.Threw?
    ensures NamedAt(old(gh.store), p, cliTag, sha) && r.Done? && Still(gh.history, |old(gh.history)| - 1) ==>
              p < |gh.store.releases| && ConfirmedAt(gh.store, p, cliTag, sha)
    ensures r.Fault? ==> gh.faulty
  {
    hide Advance; hide Consistent; hide Resolve; hide Rely; hide Shipped; hide Still; hide Exact; hide ReadState; hide NamedAt;
    ghost var h0, ready := gh.history, ConfirmedAt(gh.store, p, cliTag, sha);
    var tagged := AssertTag(gh, st.tag, st.sha);
    ghost var h1 := gh.history;
    SameAtPointer(h0, h1, |h0| - 1, p, cliTag, sha);
    var _ :- tagged;
    var latest := AssertTag(gh, CliLatest, st.sha);
    ghost var h2 := gh.history;
    SameAtPointer(h1, h2, |h0| - 1, p, cliTag, sha);
    var _ :- latest;
    var verified := VerifiedAssets(gh, p, st.assets);
    SameAtPointer(h2, gh.history, |h0| - 1, p, cliTag, sha);
    ResolvedStays(h1[|h1| - 1], h2[|h2| - 1], st.tag);
    ResolvedStays(h2[|h2| - 1], gh.store, st.tag);
    RecordOfPointer(h0[|h0| - 1].releases[p], st);
    var _ :- verified;
    if NamedAt(h0[|h0| - 1], p, cliTag, sha) && Still(gh.history, |h0| - 1) {
      ConfirmedBy(h0[|h0| - 1], gh.store, p, st, cliTag, sha);
    }
    return Done(true);
  }

  lemma RecordOfPointer(r: Release, st: Provenance)
    requires ReadState(r.body) == Some(st)
    ensures UniqueNames(st.assets) && ValidSha(st.sha)
  {
  }

  lemma ConfirmedBy(s: Store, s': Store, p: nat, st: Provenance, tag: Tag, sha: string)
    requires tag.Versioned? && p < |s.releases| && p < |s'.releases| && s'.releases[p] == s.releases[p]
    requires NamedAt(s, p, tag, sha) && ReadState(s.releases[p].body) == Some(st)
    requires Resolve(s', st.tag) == Resolved(st.sha) && Resolve(s', CliLatest) == Resolved(st.sha)
    requires Exact(s'.releases[p].assets, st.assets) && UniqueNames(st.assets) && ValidSha(st.sha)
    ensures ConfirmedAt(s', p, tag, sha)
  {
  }

  lemma SameAtPointer(before: seq<Store>, stores: seq<Store>, n: nat, p: nat, tag: Tag, sha: string)
    requires n < |before| && before <= stores && Advance(before[|before| - 1], stores[|stores| - 1])
    requires tag.Versioned? && p < |before[|before| - 1].releases| && before[|before| - 1].releases[p].tag == CliLatest
    ensures Shipped(before[|before| - 1], tag, sha) ==> Shipped(stores[|stores| - 1], tag, sha)
    ensures p < |stores[|stores| - 1].releases| && stores[|stores| - 1].releases[p].tag == CliLatest
    ensures Still(stores, n) ==>
              && Still(before, n) && Still(stores, |before| - 1)
              && stores[|stores| - 1].releases[p] == before[|before| - 1].releases[p]
              && Resolve(stores[|stores| - 1], CliLatest) == Resolve(before[|before| - 1], CliLatest)
              && (ConfirmedAt(before[|before| - 1], p, tag, sha) ==> ConfirmedAt(stores[|stores| - 1], p, tag, sha))
  {
    hide PointerView; hide Shipped; hide Exact; hide Resolve; hide ReadState;
    var s, s' := before[|before| - 1], stores[|stores| - 1];
    AdvanceAt(s, s', p);
    if Shipped(s, tag, sha) {
      ShippedForever(s, s', tag, sha);
    }
    if Still(stores, n) {
      StillParts(before, stores, n);
      SameView(s, s');
      PointerEntry(s, s', p);
      if ConfirmedAt(s, p, tag, sha) {
        ResolvedStays(s, s', ReadState(s.releases[p].body).value.tag);
      }
    }
  }

  lemma PointerEntry(s: Store, s': Store, p: nat)
    requires PointerView(s') == PointerView(s) && p < |s.releases| && s.releases[p].tag == CliLatest
    ensures p < |s'.releases| && s'.releases[p] == s.releases[p]
  {
    assert p in PointerView(s).0 && p in PointerView(s').0;
    assert PointerView(s).0[p] == s.releases[p] && PointerView(s').0[p] == s'.releases[p];
  }
}
