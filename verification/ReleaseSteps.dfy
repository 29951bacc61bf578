/** The step relation composes, keeps what was found, and is met by every request the scripts send. */
module ReleaseSteps {
  import opened Wrappers
  import opened ReleaseStore

  /** A run's successive stores. */
  predicate Run(stores: seq<Store>) {
    forall i | 0 <= i < |stores| - 1 ::
      Advance(stores[i], stores[i + 1]) && (Consistent(stores[i]) ==> Consistent(stores[i + 1]))
  }

  lemma LaterTransitive(a: Release, b: Release, c: Release)
    requires Later(a, b) && Later(b, c)
    ensures Later(a, c)
  {
  }

  lemma AdvanceReflexive(s: Store)
    ensures Advance(s, s)
  {
  }

  lemma RelyReflexive(actor: Actor, s: Store)
    ensures Rely(actor, s, s)
  {
  }

  lemma AdvanceAt(s: Store, s': Store, i: nat)
    requires Advance(s, s') && i < |s.releases|
    ensures i < |s'.releases| && Later(s.releases[i], s'.releases[i])
  {
  }

  lemma SolePersists(s: Store, s': Store, i: nat)
    requires Advance(s, s') && i < |s.releases| && Sole(s.releases, i)
    ensures Sole(s'.releases, i)
  {
    forall j | 0 <= j < |s'.releases| && j != i ensures s'.releases[j].tag != s'.releases[i].tag {
      if j < |s.releases| {
        assert Later(s.releases[j], s'.releases[j]) && Later(s.releases[i], s'.releases[i]);
      } else {
        assert Sole(s'.releases, j);
      }
    }
  }

  lemma AdvanceTransitive(a: Store, b: Store, c: Store)
    requires Advance(a, b) && Advance(b, c)
    ensures Advance(a, c)
  {
    forall i | 0 <= i < |a.releases| ensures Later(a.releases[i], c.releases[i]) {
      LaterTransitive(a.releases[i], b.releases[i], c.releases[i]);
    }
    forall i | 0 <= i < |a.releases| && a.releases[i].draft && !c.releases[i].draft
      ensures Sole(a.releases, i)
    {
      if b.releases[i].draft {
        assert Sole(b.releases, i);
        assert forall j | 0 <= j < |a.releases| :: Later(a.releases[j], b.releases[j]);
      }
    }
    forall i | |a.releases| <= i < |c.releases| ensures Sole(c.releases, i) {
      if i < |b.releases| {
        SolePersists(b, c, i);
      }
    }
  }

  lemma RelyTransitive(actor: Actor, a: Store, b: Store, c: Store)
    requires Rely(actor, a, b) && Rely(actor, b, c)
    ensures Rely(actor, a, c)
  {
    AdvanceTransitive(a, b, c);
    forall i | 0 <= i < |a.releases| && Owns(actor, a.releases[i].tag)
      ensures c.releases[i] == a.releases[i]
    {
      assert b.releases[i] == a.releases[i];
    }
    forall i | |a.releases| <= i < |c.releases| ensures !Owns(actor, c.releases[i].tag) {
      if i < |b.releases| {
        assert Later(b.releases[i], c.releases[i]);
      }
    }
  }

  /** What a lookup found stays what it finds. */
  lemma FoundPersists(s: Store, s': Store, tag: Tag, i: nat)
    requires Advance(s, s') && IsFound(s.releases, tag, i)
    ensures IsFound(s'.releases, tag, i)
  {
    assert Later(s.releases[i], s'.releases[i]);
    if s.releases[i].draft {
      SolePersists(s, s', i);
    } else {
      forall j | 0 <= j < i ensures !PublishedAs(s'.releases, tag, j) {
        assert !PublishedAs(s.releases, tag, j);
        assert Later(s.releases[j], s'.releases[j]);
        assert s.releases[j].draft && !s'.releases[j].draft ==> Sole(s.releases, j);
      }
    }
  }

  lemma FoundUnique(releases: seq<Release>, tag: Tag, i: nat, j: nat)
    requires IsFound(releases, tag, i) && IsFound(releases, tag, j)
    ensures i == j
  {
    assert PublishedAs(releases, tag, i) || Sole(releases, i);
    assert PublishedAs(releases, tag, j) || Sole(releases, j);
  }

  lemma ResolvePersists(s: Store, s': Store, tag: Tag)
    requires Advance(s, s') && tag != CliLatest && Resolve(s, tag) != Missing
    ensures Resolve(s', tag) == Resolve(s, tag)
  {
  }

  // ---------- the pointer's invariant ----------

  lemma SourcePersists(s: Store, s': Store, st: Provenance, k: nat)
    requires Advance(s, s')
    requires IsFound(s.releases, st.tag, k) && SourceOf(s.releases[k], st)
    ensures IsFound(s'.releases, st.tag, k) && SourceOf(s'.releases[k], st)
  {
    FoundPersists(s, s', st.tag, k);
    assert Later(s.releases[k], s'.releases[k]);
  }

  predicate SamePointer(s: Store, s': Store) {
    && (forall p | 0 <= p < |s'.releases| && s'.releases[p].tag == CliLatest ::
          p < |s.releases| && s.releases[p] == s'.releases[p])
    && (CliLatest in s.tags <==> CliLatest in s'.tags)
    && (CliLatest in s.tags ==> s'.tags[CliLatest] == s.tags[CliLatest])
  }

  lemma PointerStays(s: Store, s': Store, p: nat)
    requires Advance(s, s') && SamePointer(s, s')
    requires IsFound(s'.releases, CliLatest, p)
    ensures p < |s.releases| && IsFound(s.releases, CliLatest, p)
  {
    assert forall j | 0 <= j < |s.releases| :: Later(s.releases[j], s'.releases[j]);
    if s.releases[p].draft {
      assert Sole(s'.releases, p);
    } else {
      forall j | 0 <= j < p ensures !PublishedAs(s.releases, CliLatest, j) {
        assert !PublishedAs(s'.releases, CliLatest, j);
        assert Later(s.releases[j], s'.releases[j]);
      }
    }
  }

  lemma SoundPersists(s: Store, s': Store, p: nat)
    requires Advance(s, s') && p < |s.releases|
    requires s'.releases[p] == s.releases[p] && PointerSound(s, p)
    requires Resolve(s', CliLatest) == Resolve(s, CliLatest)
    ensures PointerSound(s', p)
  {
    var state := ReadState(s.releases[p].body);
    if state.Some? {
      var k :| 0 <= k < |s.releases| && IsFound(s.releases, state.value.tag, k) && SourceOf(s.releases[k], state.value);
      SourcePersists(s, s', state.value, k);
    }
  }

  /** Every release is as it was, or honest. */
  predicate HonestChanges(s: Store, s': Store) {
    forall i | 0 <= i < |s'.releases| :: (i < |s.releases| && s'.releases[i] == s.releases[i]) || Honest(s'.releases[i])
  }

  /** A step that leaves the pointer alone cannot make it unsound. */
  lemma ConsistentPersists(s: Store, s': Store)
    requires Advance(s, s') && SamePointer(s, s') && HonestChanges(s, s') && Consistent(s)
    ensures Consistent(s')
  {
    hide Honest;
    forall p | 0 <= p < |s'.releases| && IsFound(s'.releases, CliLatest, p) ensures PointerSound(s', p) {
      PointerStays(s, s', p);
      SoundPersists(s, s', p);
    }
  }

  predicate HoldsPointer(s: Store, i: nat) {
    i < |s.releases| && s.releases[i].tag == CliLatest
  }

  lemma SamePointerView(s: Store, s': Store)
    requires forall i: nat :: HoldsPointer(s, i) <==> HoldsPointer(s', i)
    requires forall i: nat | HoldsPointer(s, i) && HoldsPointer(s', i) :: s'.releases[i] == s.releases[i]
    requires CliLatest in s.tags <==> CliLatest in s'.tags
    requires CliLatest in s.tags ==> s'.tags[CliLatest] == s.tags[CliLatest]
    ensures PointerView(s') == PointerView(s)
  {
    var was, now := PointerView(s).0, PointerView(s').0;
    assert forall i: nat :: i in was <==> HoldsPointer(s, i);
    assert forall i: nat :: i in now <==> HoldsPointer(s', i);
    assert now == was;
  }

  /** Nobody but the cli publisher touches the pointer. */
  lemma RelyKeepsPointer(actor: Actor, s: Store, s': Store)
    requires Rely(actor, s, s')
    ensures actor == CliPublisher ==> PointerView(s') == PointerView(s)
  {
    if actor == CliPublisher {
      forall i: nat
        ensures HoldsPointer(s, i) <==> HoldsPointer(s', i)
        ensures HoldsPointer(s, i) ==> s'.releases[i] == s.releases[i]
      {
        if i < |s.releases| {
          AdvanceAt(s, s', i);
        }
      }
      SamePointerView(s, s');
    }
  }

  /** The same pointer is found, with the same tag. */
  lemma SameView(s: Store, s': Store)
    requires Advance(s, s') && PointerView(s') == PointerView(s)
    ensures IsAbsent(s'.releases, CliLatest) <==> IsAbsent(s.releases, CliLatest)
    ensures forall p: nat :: IsFound(s'.releases, CliLatest, p) <==> IsFound(s.releases, CliLatest, p)
    ensures forall p: nat | IsFound(s.releases, CliLatest, p) :: s'.releases[p] == s.releases[p]
    ensures Resolve(s', CliLatest) == Resolve(s, CliLatest)
  {
    AbsentInView(s);
    AbsentInView(s');
    forall p: nat
      ensures IsFound(s'.releases, CliLatest, p) <==> IsFound(s.releases, CliLatest, p)
      ensures IsFound(s.releases, CliLatest, p) ==> s'.releases[p] == s.releases[p]
    {
      FoundInView(s, p);
      FoundInView(s', p);
    }
  }

  predicate FoundIn(view: map<nat, Release>, p: nat) {
    && p in view
    && if view[p].draft then forall j: nat | j in view :: j == p
       else forall j: nat | j in view && j < p :: view[j].draft
  }

  lemma AbsentInView(s: Store)
    ensures IsAbsent(s.releases, CliLatest) <==> PointerView(s).0 == map[]
  {
    if !IsAbsent(s.releases, CliLatest) {
      var i: nat :| i < |s.releases| && s.releases[i].tag == CliLatest;
      assert i in PointerView(s).0;
    }
  }

  lemma FoundInView(s: Store, p: nat)
    ensures IsFound(s.releases, CliLatest, p) <==> FoundIn(PointerView(s).0, p)
    ensures IsFound(s.releases, CliLatest, p) ==> PointerView(s).0[p] == s.releases[p]
  {
    var view := PointerView(s).0;
    assert forall j: nat :: j in view <==> j < |s.releases| && s.releases[j].tag == CliLatest;
    assert forall j: nat | j in view :: view[j] == s.releases[j];
    if p in view {
      if view[p].draft {
        assert Sole(s.releases, p) <==> forall j: nat | j in view :: j == p;
      } else {
        forall j: nat | j < p ensures PublishedAs(s.releases, CliLatest, j) <==> j in view && !view[j].draft {
        }
      }
    }
  }

  // ---------- when the rolling tag moves ----------

  /** The rolling tag stays, or comes to the commit recorded for a pointer that already has the recorded assets. */
  ghost predicate TagFollows(s: Store, s': Store) {
    || ((CliLatest in s'.tags <==> CliLatest in s.tags) && (CliLatest in s.tags ==> s'.tags[CliLatest] == s.tags[CliLatest]))
    || exists p: nat | p < |s'.releases| ::
         && IsFound(s'.releases, CliLatest, p) && |s'.releases[p].body.markers| == 1
         && var st := s'.releases[p].body.markers[0];
         Exact(s'.releases[p].assets, st.assets) && Resolve(s', CliLatest) == Resolved(st.sha)
  }

  ghost predicate TagsFollow(stores: seq<Store>) {
    forall i | 0 <= i < |stores| - 1 :: TagFollows(stores[i], stores[i + 1])
  }

  // ---------- runs that leave the pointer alone ----------

  /** The pointer is the same in every store from number `n` on. */
  predicate Still(stores: seq<Store>, n: int) {
    forall i | 0 <= n <= i < |stores| :: PointerView(stores[i]) == PointerView(stores[n])
  }

  lemma StillParts(before: seq<Store>, stores: seq<Store>, n: nat)
    requires n < |before| && before <= stores && Still(stores, n)
    ensures Still(before, n) && Still(stores, |before| - 1)
    ensures PointerView(before[|before| - 1]) == PointerView(stores[n])
    ensures PointerView(stores[|stores| - 1]) == PointerView(stores[n])
  {
    hide PointerView;
    assert PointerView(stores[|before| - 1]) == PointerView(stores[n]);
  }

  // ---------- requests on versioned releases ----------

  function Replaced(s: Store, i: nat, r: Release): Store
    requires i < |s.releases|
  {
    s.(releases := s.releases[i := r])
  }

  function Appended(s: Store, r: Release): Store {
    s.(releases := s.releases + [r])
  }

  function Tagged(s: Store, tag: Tag, sha: string): Store {
    s.(tags := s.tags[tag := GitObject(CommitObject, sha)])
  }

  lemma ReplaceAdvances(s: Store, i: nat, r: Release)
    requires i < |s.releases| && Later(s.releases[i], r)
    requires s.releases[i].draft && !r.draft ==> Sole(s.releases, i)
    ensures Advance(s, Replaced(s, i, r))
  {
  }

  lemma VersionedKeepsPointer(s: Store, i: nat, r: Release)
    requires r.tag.Versioned?
    ensures i < |s.releases| && s.releases[i].tag == r.tag ==> PointerView(Replaced(s, i, r)) == PointerView(s)
    ensures PointerView(Appended(s, r)) == PointerView(s)
  {
    SamePointerView(s, Appended(s, r));
    if i < |s.releases| && s.releases[i].tag == r.tag {
      SamePointerView(s, Replaced(s, i, r));
    }
  }

  lemma ReplaceVersioned(actor: Actor, s: Store, i: nat, r: Release)
    requires i < |s.releases| && s.releases[i].tag.Versioned? && Owns(actor, s.releases[i].tag)
    requires Later(s.releases[i], r) && (Honest(s.releases[i]) ==> Honest(r))
    requires s.releases[i].draft && !r.draft ==> Sole(s.releases, i)
    ensures Permitted(actor, s, Replaced(s, i, r))
  {
    hide Honest;
    var s' := Replaced(s, i, r);
    ReplaceAdvances(s, i, r);
    if Consistent(s) {
      ConsistentPersists(s, s');
    }
  }

  lemma AppendVersioned(actor: Actor, s: Store, r: Release)
    requires r.tag.Versioned? && Owns(actor, r.tag) && IsAbsent(s.releases, r.tag) && Honest(r)
    ensures Permitted(actor, s, Appended(s, r))
  {
    hide Honest;
    var s' := Appended(s, r);
    if Consistent(s) {
      ConsistentPersists(s, s');
    }
  }

  lemma TagVersioned(s: Store, tag: Tag, sha: string)
    requires tag.Versioned? && tag !in s.tags
    ensures Permitted(Lockstep, s, Tagged(s, tag, sha))
  {
    if Consistent(s) {
      ConsistentPersists(s, Tagged(s, tag, sha));
    }
  }

  lemma DispatchPermitted(s: Store, tag: Tag)
    ensures Permitted(Lockstep, s, s.(dispatched := s.dispatched + [tag]))
  {
    if Consistent(s) {
      ConsistentPersists(s, s.(dispatched := s.dispatched + [tag]));
    }
  }

  // ---------- requests on the pointer ----------

  /** Other actors tolerate any sound, non-decreasing change of the pointer. */
  lemma ReplacePointer(s: Store, p: nat, r: Release)
    requires p < |s.releases| && s.releases[p].tag == CliLatest
    requires Later(s.releases[p], r)
    requires s.releases[p].draft && !r.draft ==> Sole(s.releases, p)
    requires IsFound(s.releases, CliLatest, p)
    requires Consistent(s) ==> PointerSound(Replaced(s, p, r), p)
    ensures Permitted(CliPublisher, s, Replaced(s, p, r))
  {
    var s' := Replaced(s, p, r);
    ReplaceAdvances(s, p, r);
    if Consistent(s) {
      FoundPersists(s, s', CliLatest, p);
      forall q | 0 <= q < |s'.releases| && IsFound(s'.releases, CliLatest, q) ensures PointerSound(s', q) {
        FoundUnique(s'.releases, CliLatest, p, q);
      }
    }
  }

  lemma AppendPointer(s: Store, r: Release)
    requires r.tag == CliLatest && IsAbsent(s.releases, CliLatest)
    requires Consistent(s) ==> PointerSound(Appended(s, r), |s.releases|)
    ensures Permitted(CliPublisher, s, Appended(s, r))
  {
    var s' := Appended(s, r);
    assert Advance(s, s');
    if Consistent(s) {
      forall q | 0 <= q < |s'.releases| && IsFound(s'.releases, CliLatest, q) ensures PointerSound(s', q) {
        assert q == |s.releases|;
      }
    }
  }

  /** The pointer's tag may move only while its record does not say complete for another commit. */
  lemma TagPointer(s: Store, p: nat, sha: string)
    requires IsFound(s.releases, CliLatest, p)
    requires Consistent(s) ==> PointerSound(Tagged(s, CliLatest, sha), p)
    ensures Permitted(CliPublisher, s, Tagged(s, CliLatest, sha))
  {
    var s' := Tagged(s, CliLatest, sha);
    assert Advance(s, s');
    if Consistent(s) {
      forall q | 0 <= q < |s'.releases| && IsFound(s'.releases, CliLatest, q) ensures PointerSound(s', q) {
        FoundUnique(s'.releases, CliLatest, p, q);
      }
    }
  }
}
