/** What a whole run guarantees: any number of steps, by any actors, cut anywhere. */
module ReleaseRuns {
  import opened Wrappers
  import opened ReleaseStore
  import opened ReleaseSteps

  lemma {:induction false} RunAdvances(stores: seq<Store>, i: nat, j: nat)
    requires Run(stores) && i <= j < |stores|
    ensures Advance(stores[i], stores[j])
    ensures Consistent(stores[i]) ==> Consistent(stores[j])
    decreases j - i
  {
    hide Consistent, Advance;
    if i == j {
      AdvanceReflexive(stores[i]);
    } else {
      RunAdvances(stores, i, j - 1);
      AdvanceTransitive(stores[i], stores[j - 1], stores[j]);
    }
  }

  /** The version recorded for the pointer never decreases. */
  lemma FloorNeverDecreases(stores: seq<Store>, i: nat, j: nat, p: nat)
    requires Run(stores) && i <= j < |stores| && IsFound(stores[i].releases, CliLatest, p)
    ensures IsFound(stores[j].releases, CliLatest, p)
    ensures FloorAtMost(Floor(stores[i].releases[p]), Floor(stores[j].releases[p]))
  {
    RunAdvances(stores, i, j);
    FoundPersists(stores[i], stores[j], CliLatest, p);
    AdvanceAt(stores[i], stores[j], p);
  }

  /** A complete record of the pointer is true in every store of the run. */
  lemma PointerNeverLies(stores: seq<Store>, j: nat, p: nat)
    requires Run(stores) && j < |stores| && Consistent(stores[0])
    requires IsFound(stores[j].releases, CliLatest, p)
    requires var state := ReadState(stores[j].releases[p].body); state.Some? && state.value.phase == Complete
    ensures var st := ReadState(stores[j].releases[p].body).value;
            && Exact(stores[j].releases[p].assets, st.assets)
            && st.tag.Versioned? && Manifest(st.tag.version) in st.assets
            && Resolve(stores[j], CliLatest) == Resolve(stores[j], st.tag) == Resolved(st.sha)
  {
    RunAdvances(stores, 0, j);
    assert PointerSound(stores[j], p);
    var st := ReadState(stores[j].releases[p].body).value;
    assert st.assets[|st.assets| - 1] == Manifest(st.tag.version);
  }

  /** A complete record of a versioned release is true in every store of the run. */
  lemma CompleteNeverLies(stores: seq<Store>, j: nat, k: nat)
    requires Run(stores) && j < |stores| && Consistent(stores[0]) && k < |stores[j].releases|
    requires stores[j].releases[k].tag.Versioned?
    requires var state := ReadState(stores[j].releases[k].body); state.Some? && state.value.phase == Complete
    ensures Exact(stores[j].releases[k].assets, ReadState(stores[j].releases[k].body).value.assets)
  {
    RunAdvances(stores, 0, j);
    assert Honest(stores[j].releases[k]);
  }

  /** A versioned release keeps its tag's commit, its inventory, its completeness and its uploaded bytes. */
  lemma VersionedNeverRegresses(stores: seq<Store>, i: nat, j: nat, tag: Tag, k: nat)
    requires Run(stores) && i <= j < |stores| && tag.Versioned?
    requires IsFound(stores[i].releases, tag, k) && ReadState(stores[i].releases[k].body).Some?
    ensures IsFound(stores[j].releases, tag, k) && ReadState(stores[j].releases[k].body).Some?
    ensures Resolve(stores[i], tag) != Missing ==> Resolve(stores[j], tag) == Resolve(stores[i], tag)
    ensures var r, r' := stores[i].releases[k], stores[j].releases[k];
            var st, st' := ReadState(r.body).value, ReadState(r'.body).value;
            && st'.tag == st.tag && st'.sha == st.sha && st'.assets == st.assets
            && (st.phase == Complete ==> st'.phase == Complete)
            && (!r.draft ==> !r'.draft) && r'.prerelease == r.prerelease
            && (forall n | n in r.assets && r.assets[n].state == Uploaded :: n in r'.assets && r'.assets[n] == r.assets[n])
            && (Exact(r.assets, st.assets) ==> r'.assets == r.assets)
  {
    RunAdvances(stores, i, j);
    FoundPersists(stores[i], stores[j], tag, k);
    AdvanceAt(stores[i], stores[j], k);
    if Resolve(stores[i], tag) != Missing {
      ResolvePersists(stores[i], stores[j], tag);
    }
    var r, r' := stores[i].releases[k], stores[j].releases[k];
    if Exact(r.assets, ReadState(r.body).value.assets) {
      ExactFrozen(r, r');
    }
  }

  lemma ExactFrozen(r: Release, r': Release)
    requires Later(r, r') && r.tag.Versioned? && ReadState(r.body).Some?
    requires Exact(r.assets, ReadState(r.body).value.assets)
    ensures r'.assets == r.assets
  {
    var specs := ReadState(r.body).value.assets;
    forall n | n in r.assets ensures r.assets[n].state == Uploaded {
      assert n in Names(specs);
      var i :| 0 <= i < |specs| && specs[i].name == n;
      assert Holds(r.assets, specs[i]);
    }
  }

  // ---------- annotated tags ----------

  /** The object `n` annotations away. */
  function Hop(objects: map<string, GitObject>, at: GitObject, n: nat): Option<GitObject>
    decreases n
  {
    if n == 0 then Some(at)
    else if at.kind == TagObject && at.sha in objects then Hop(objects, objects[at.sha], n - 1)
    else None
  }

  predicate Reaches(objects: map<string, GitObject>, at: GitObject, n: nat, sha: string) {
    Hop(objects, at, n) == Some(GitObject(CommitObject, sha)) && ValidSha(sha)
  }

  /** A chain of annotations that ends in a commit ends after one number of hops only. */
  lemma {:induction false} OneLength(objects: map<string, GitObject>, at: GitObject, m: nat, n: nat, a: string, b: string)
    requires Reaches(objects, at, m, a) && Reaches(objects, at, n, b)
    ensures m == n && a == b
    decreases m
  {
    if m > 0 && n > 0 {
      OneLength(objects, objects[at.sha], m - 1, n - 1, a, b);
    }
  }

  lemma {:induction false} TailReaches(objects: map<string, GitObject>, at: GitObject, n: nat, k: nat, sha: string)
    requires Reaches(objects, at, n, sha) && k <= n
    ensures Hop(objects, at, k).Some? && Reaches(objects, Hop(objects, at, k).value, n - k, sha)
    ensures k < n ==> Hop(objects, at, k).value.kind == TagObject
    decreases k
  {
    if k > 0 {
      TailReaches(objects, objects[at.sha], n - 1, k - 1, sha);
    }
  }

  /** `seen` holds nothing the chain from `at` still has to pass. */
  ghost predicate Fresh(objects: map<string, GitObject>, at: GitObject, n: nat, seen: set<string>) {
    forall k | 0 <= k < n :: Hop(objects, at, k).Some? ==> Hop(objects, at, k).value.sha !in seen
  }

  lemma {:induction false} FollowsChain(objects: map<string, GitObject>, at: GitObject, n: nat, sha: string, seen: set<string>)
    requires Reaches(objects, at, n, sha) && Fresh(objects, at, n, seen)
    ensures Follow(objects, at, seen) == Resolved(sha)
    decreases n
  {
    if n > 0 {
      assert Hop(objects, at, 0) == Some(at);
      var next := objects[at.sha];
      forall k | 0 <= k < n - 1 && Hop(objects, next, k).Some?
        ensures Hop(objects, next, k).value.sha !in seen + {at.sha}
      {
        assert Hop(objects, at, k + 1) == Hop(objects, next, k);
        TailReaches(objects, next, n - 1, k, sha);
        if Hop(objects, next, k).value.sha == at.sha {
          TailReaches(objects, next, n - 1, k + 1, sha);
          HopOn(objects, next, k);
          OneLength(objects, next, n - 1, n - 1 - (k + 1), sha, sha);
        }
      }
      FollowsChain(objects, next, n - 1, sha, seen + {at.sha});
    }
  }

  lemma {:induction false} HopOn(objects: map<string, GitObject>, at: GitObject, k: nat)
    requires Hop(objects, at, k).Some? && Hop(objects, at, k).value.kind == TagObject
    requires Hop(objects, at, k).value.sha in objects
    ensures Hop(objects, at, k + 1) == Some(objects[Hop(objects, at, k).value.sha])
    decreases k
  {
    if k > 0 {
      HopOn(objects, objects[at.sha], k - 1);
    }
  }

  lemma {:induction false} ChainFollowed(objects: map<string, GitObject>, at: GitObject, seen: set<string>, sha: string) returns (n: nat)
    requires Follow(objects, at, seen) == Resolved(sha)
    ensures Reaches(objects, at, n, sha)
    decreases objects.Keys - seen
  {
    if at.kind == TagObject {
      var rest := ChainFollowed(objects, objects[at.sha], seen + {at.sha}, sha);
      n := rest + 1;
    } else {
      n := 0;
    }
  }

  /** The cycle check rejects nothing git would resolve: a tag resolves exactly when its chain ends in a commit. */
  lemma ResolvesIffReaches(s: Store, tag: Tag, sha: string)
    requires tag in s.tags
    ensures Resolve(s, tag) == Resolved(sha) <==> exists n: nat :: Reaches(s.objects, s.tags[tag], n, sha)
  {
    if Resolve(s, tag) == Resolved(sha) {
      var n := ChainFollowed(s.objects, s.tags[tag], {}, sha);
    }
    if exists n: nat :: Reaches(s.objects, s.tags[tag], n, sha) {
      var n: nat :| Reaches(s.objects, s.tags[tag], n, sha);
      FollowsChain(s.objects, s.tags[tag], n, sha, {});
    }
  }
}
