/** Restricted Damerau-Levenshtein distance and the suggestion made from it. */
module EditDistance {
  import opened Wrappers

  // ---------- edit scripts ----------

  /** One step of a left-to-right script; no character is touched by two steps. */
  datatype Edit =
    | Replace(from: char, to: char)
    | Insert(added: char)
    | Delete(dropped: char)
    | Swap(first: char, second: char)

  function Before(e: Edit): string {
    match e
    case Replace(c, _) => [c]
    case Insert(_) => []
    case Delete(c) => [c]
    case Swap(c, d) => [c, d]
  }

  function After(e: Edit): string {
    match e
    case Replace(_, c) => [c]
    case Insert(c) => [c]
    case Delete(_) => []
    case Swap(c, d) => [d, c]
  }

  /** A replacement by the same character is free: the character is kept. */
  function Cost(e: Edit): nat {
    if e.Replace? && e.from == e.to then 0 else 1
  }

  function Source(script: seq<Edit>): string {
    if script == [] then [] else Source(script[..|script| - 1]) + Before(script[|script| - 1])
  }

  function Target(script: seq<Edit>): string {
    if script == [] then [] else Target(script[..|script| - 1]) + After(script[|script| - 1])
  }

  function Total(script: seq<Edit>): nat {
    if script == [] then 0 else Total(script[..|script| - 1]) + Cost(script[|script| - 1])
  }

  predicate Turns(script: seq<Edit>, a: string, b: string) {
    Source(script) == a && Target(script) == b
  }

  // ---------- the recurrence ----------

  function Min(x: nat, y: nat): nat {
    if x <= y then x else y
  }

  /** An entry from its neighbours: above, left, diagonal and two diagonals back. */
  function Best(a: string, b: string, i: nat, j: nat, above: nat, left: nat, diagonal: nat, back: nat): nat
    requires 0 < i <= |a| && 0 < j <= |b|
  {
    var cost := if a[i - 1] == b[j - 1] then 0 else 1;
    var best := Min(Min(above + 1, left + 1), diagonal + cost);
    if i > 1 && j > 1 && a[i - 1] == b[j - 2] && a[i - 2] == b[j - 1] then Min(best, back + cost) else best
  }

  /** The table entry for the first `i` characters of `a` and the first `j` of `b`. */
  function Entry(a: string, b: string, i: nat, j: nat): nat
    requires i <= |a| && j <= |b|
  {
    if i == 0 then j
    else if j == 0 then i
    else Best(a, b, i, j, Entry(a, b, i - 1, j), Entry(a, b, i, j - 1), Entry(a, b, i - 1, j - 1),
              if i > 1 && j > 1 then Entry(a, b, i - 2, j - 2) else 0)
  }

  function Distance(a: string, b: string): nat {
    Entry(a, b, |a|, |b|)
  }

  lemma Extend(script: seq<Edit>, e: Edit)
    ensures Source(script + [e]) == Source(script) + Before(e)
    ensures Target(script + [e]) == Target(script) + After(e)
    ensures Total(script + [e]) == Total(script) + Cost(e)
  {
    assert (script + [e])[..|script|] == script;
  }

  lemma {:induction false} EntryStep(a: string, b: string, i: nat, j: nat)
    requires i <= |a| && j <= |b|
    ensures i == 0 ==> Entry(a, b, i, j) == j
    ensures j == 0 ==> Entry(a, b, i, j) == i
    ensures i > 0 && j > 0 ==>
              Entry(a, b, i, j) ==
                Best(a, b, i, j, Entry(a, b, i - 1, j), Entry(a, b, i, j - 1), Entry(a, b, i - 1, j - 1),
                     if i > 1 && j > 1 then Entry(a, b, i - 2, j - 2) else 0)
  {
    hide Best;
  }

  predicate Swapped(a: string, b: string, i: nat, j: nat)
    requires i <= |a| && j <= |b|
  {
    i > 1 && j > 1 && a[i - 1] == b[j - 2] && a[i - 2] == b[j - 1]
  }

  /** A free transposition would be two kept characters, so a transposition that pays costs one. */
  lemma BestIsOneOf(a: string, b: string, i: nat, j: nat)
    requires 0 < i <= |a| && 0 < j <= |b|
    ensures || Entry(a, b, i, j) == Entry(a, b, i, j - 1) + 1
            || Entry(a, b, i, j) == Entry(a, b, i - 1, j) + 1
            || Entry(a, b, i, j) == Entry(a, b, i - 1, j - 1) + Cost(Replace(a[i - 1], b[j - 1]))
            || (Swapped(a, b, i, j) && Entry(a, b, i, j) == Entry(a, b, i - 2, j - 2) + 1)
  {
    hide Entry;
    EntryStep(a, b, i, j);
    EntryStep(a, b, i - 1, j - 1);
  }

  /** The entry's last edit: what it costs is what the entry adds to the one it comes from. */
  lemma LastEdit(a: string, b: string, i: nat, j: nat) returns (e: Edit, i': nat, j': nat)
    requires i <= |a| && j <= |b| && i + j > 0
    ensures i' <= i && j' <= j && i' + j' < i + j
    ensures a[i'..i] == Before(e) && b[j'..j] == After(e)
    ensures Entry(a, b, i, j) == Entry(a, b, i', j') + Cost(e)
  {
    hide Entry, Best;
    EntryStep(a, b, i, j);
    if i > 0 && j > 0 {
      BestIsOneOf(a, b, i, j);
    }
    if i == 0 || (j > 0 && Entry(a, b, i, j) == Entry(a, b, i, j - 1) + 1) {
      EntryStep(a, b, i, j - 1);
      return Insert(b[j - 1]), i, j - 1;
    }
    if j == 0 || Entry(a, b, i, j) == Entry(a, b, i - 1, j) + 1 {
      EntryStep(a, b, i - 1, j);
      return Delete(a[i - 1]), i - 1, j;
    }
    if Entry(a, b, i, j) == Entry(a, b, i - 1, j - 1) + Cost(Replace(a[i - 1], b[j - 1])) {
      return Replace(a[i - 1], b[j - 1]), i - 1, j - 1;
    }
    return Swap(a[i - 2], a[i - 1]), i - 2, j - 2;
  }

  /** Some script turns one prefix into the other at the cost in the table. */
  lemma {:induction false} EntryAchieved(a: string, b: string, i: nat, j: nat) returns (script: seq<Edit>)
    requires i <= |a| && j <= |b|
    ensures Turns(script, a[..i], b[..j]) && Total(script) == Entry(a, b, i, j)
    decreases i + j
  {
    hide Entry, Cost, Source, Target, Total, Before, After;
    if i == 0 && j == 0 {
      EntryStep(a, b, i, j);
      NoScript();
      script := [];
    } else {
      var e, i', j' := LastEdit(a, b, i, j);
      var shorter := EntryAchieved(a, b, i', j');
      Extend(shorter, e);
      assert a[..i] == a[..i'] + a[i'..i] && b[..j] == b[..j'] + b[j'..j];
      script := shorter + [e];
    }
  }

  lemma NoScript()
    ensures Turns([], [], []) && Total([]) == 0
  {
  }

  /** No script does it for less. */
  lemma {:induction false} EntryLeast(a: string, b: string, i: nat, j: nat, script: seq<Edit>)
    requires i <= |a| && j <= |b| && Turns(script, a[..i], b[..j])
    ensures Entry(a, b, i, j) <= Total(script)
    decreases |script|
  {
    if script != [] {
      var init, e := script[..|script| - 1], script[|script| - 1];
      var i', j' := i - |Before(e)|, j - |After(e)|;
      assert |Source(script)| == i && |Target(script)| == j;
      assert a[..i] == Source(init) + Before(e) && b[..j] == Target(init) + After(e);
      assert a[..i'] == a[..i][..i'] == Source(init) && b[..j'] == b[..j][..j'] == Target(init);
      assert a[i'..i] == a[..i][i'..] == Before(e) && b[j'..j] == b[..j][j'..] == After(e);
      EntryLeast(a, b, i', j', init);
      LastStep(a, b, i, j, e);
    }
  }

  lemma LastStep(a: string, b: string, i: nat, j: nat, e: Edit)
    requires |Before(e)| <= i <= |a| && |After(e)| <= j <= |b|
    requires a[i - |Before(e)|..i] == Before(e) && b[j - |After(e)|..j] == After(e)
    ensures Entry(a, b, i, j) <= Entry(a, b, i - |Before(e)|, j - |After(e)|) + Cost(e)
  {
    hide Entry;
    EntryAtMost(a, b, i, j);
    EntryAtMost(a, b, i - |Before(e)|, j - |After(e)|);
    match e
    case Replace(c, d) =>
      assert a[i - 1] == a[i - 1..i][0] == c && b[j - 1] == b[j - 1..j][0] == d;
    case Insert(c) =>
    case Delete(c) =>
    case Swap(c, d) =>
      assert a[i - 2] == a[i - 2..i][0] == c && a[i - 1] == a[i - 2..i][1] == d;
      assert b[j - 2] == b[j - 2..j][0] == d && b[j - 1] == b[j - 2..j][1] == c;
  }

  lemma EntryAtMost(a: string, b: string, i: nat, j: nat)
    requires i <= |a| && j <= |b|
    ensures i == 0 ==> Entry(a, b, i, j) == j
    ensures j == 0 ==> Entry(a, b, i, j) == i
    ensures i > 0 && j > 0 ==>
              && Entry(a, b, i, j) <= Entry(a, b, i - 1, j) + 1
              && Entry(a, b, i, j) <= Entry(a, b, i, j - 1) + 1
              && Entry(a, b, i, j) <= Entry(a, b, i - 1, j - 1) + Cost(Replace(a[i - 1], b[j - 1]))
    ensures Swapped(a, b, i, j) ==> Entry(a, b, i, j) <= Entry(a, b, i - 2, j - 2) + 1
  {
    hide Entry;
    EntryStep(a, b, i, j);
  }

  /** The distance is the length of the shortest script. */
  lemma DistanceIsShortest(a: string, b: string)
    ensures exists script :: Turns(script, a, b) && Total(script) == Distance(a, b)
    ensures forall script | Turns(script, a, b) :: Distance(a, b) <= Total(script)
  {
    assert a[..|a|] == a && b[..|b|] == b;
    var script := EntryAchieved(a, b, |a|, |b|);
    forall other | Turns(other, a, b) ensures Distance(a, b) <= Total(other) {
      EntryLeast(a, b, |a|, |b|, other);
    }
  }

  // ---------- a metric ----------

  function Mirror(e: Edit): Edit {
    match e
    case Replace(c, d) => Replace(d, c)
    case Insert(c) => Delete(c)
    case Delete(c) => Insert(c)
    case Swap(c, d) => Swap(d, c)
  }

  lemma {:induction false} MirrorScript(script: seq<Edit>) returns (back: seq<Edit>)
    ensures Turns(back, Target(script), Source(script)) && Total(back) == Total(script)
  {
    if script == [] {
      back := [];
    } else {
      var rest := MirrorScript(script[..|script| - 1]);
      Extend(rest, Mirror(script[|script| - 1]));
      back := rest + [Mirror(script[|script| - 1])];
    }
  }

  lemma DistanceSymmetric(a: string, b: string)
    ensures Distance(a, b) == Distance(b, a)
  {
    NotFarther(a, b);
    NotFarther(b, a);
  }

  lemma NotFarther(a: string, b: string)
    ensures Distance(b, a) <= Distance(a, b)
  {
    DistanceIsShortest(a, b);
    var script :| Turns(script, a, b) && Total(script) == Distance(a, b);
    var back := MirrorScript(script);
    DistanceIsShortest(b, a);
  }

  lemma {:induction false} FreeScriptKeeps(script: seq<Edit>)
    requires Total(script) == 0
    ensures Source(script) == Target(script)
  {
    if script != [] {
      FreeScriptKeeps(script[..|script| - 1]);
    }
  }

  lemma {:induction false} KeepAll(a: string) returns (script: seq<Edit>)
    ensures Turns(script, a, a) && Total(script) == 0
  {
    if a == [] {
      script := [];
    } else {
      var rest := KeepAll(a[..|a| - 1]);
      var c := a[|a| - 1];
      Extend(rest, Replace(c, c));
      script := rest + [Replace(c, c)];
    }
  }

  lemma ZeroOnlyForEqual(a: string, b: string)
    ensures Distance(a, b) == 0 <==> a == b
  {
    DistanceIsShortest(a, b);
    if Distance(a, b) == 0 {
      var script :| Turns(script, a, b) && Total(script) == 0;
      FreeScriptKeeps(script);
    }
    if a == b {
      var script := KeepAll(a);
    }
  }

  // ---------- the procedures ----------

  method DamerauLevenshtein(a: string, b: string) returns (distance: nat)
    ensures distance == Distance(a, b)
  {
    hide Entry;
    var d := new nat[|a| + 1, |b| + 1]((_, _) => 0);
    for i := 0 to |a| + 1
      invariant forall k | 0 <= k < i :: d[k, 0] == k
    {
      d[i, 0] := i;
    }
    for j := 0 to |b| + 1
      invariant forall k | 0 <= k <= |a| :: d[k, 0] == k
      invariant forall k | 0 <= k < j :: d[0, k] == k
    {
      d[0, j] := j;
    }
    forall l | 0 <= l <= |b| ensures d[0, l] == Entry(a, b, 0, l) {
      EntryStep(a, b, 0, l);
    }
    for i := 1 to |a| + 1
      invariant forall k | 0 <= k <= |a| :: d[k, 0] == k
      invariant forall k, l | 0 <= k < i && 0 <= l <= |b| :: d[k, l] == Entry(a, b, k, l)
    {
      FillRow(a, b, d, i);
    }
    distance := d[|a|, |b|];
  }

  /** The inner loop: one row from the two before it. */
  method FillRow(a: string, b: string, d: array2<nat>, i: nat)
    requires d.Length0 == |a| + 1 && d.Length1 == |b| + 1 && 1 <= i <= |a|
    requires forall k | 0 <= k <= |a| :: d[k, 0] == k
    requires forall k, l | 0 <= k < i && 0 <= l <= |b| :: d[k, l] == Entry(a, b, k, l)
    modifies d
    ensures forall k | 0 <= k <= |a| :: d[k, 0] == k
    ensures forall k, l | 0 <= k <= i && 0 <= l <= |b| :: d[k, l] == Entry(a, b, k, l)
  {
    hide Entry;
    EntryStep(a, b, i, 0);
    for j := 1 to |b| + 1
      invariant forall k | 0 <= k <= |a| :: d[k, 0] == k
      invariant forall k, l | 0 <= k < i && 0 <= l <= |b| :: d[k, l] == Entry(a, b, k, l)
      invariant forall l | 0 <= l < j :: d[i, l] == Entry(a, b, i, l)
    {
      var cost := if a[i - 1] == b[j - 1] then 0 else 1;
      var val := Min(Min(d[i - 1, j] + 1, d[i, j - 1] + 1), d[i - 1, j - 1] + cost);
      if i > 1 && j > 1 && a[i - 1] == b[j - 2] && a[i - 2] == b[j - 1] {
        val := Min(val, d[i - 2, j - 2] + cost);
      }
      EntryStep(a, b, i, j);
      d[i, j] := val;
    }
  }

  /** The first candidate of least distance, if that is within the threshold. */
  method SuggestSimilar(input: string, candidates: seq<string>, threshold: nat) returns (best: Option<string>)
    ensures best.None? <==> forall c | c in candidates :: Distance(input, c) > threshold
    ensures best.Some? ==>
              exists k | 0 <= k < |candidates| ::
                && candidates[k] == best.value && Distance(input, best.value) <= threshold
                && (forall j | 0 <= j < |candidates| :: Distance(input, best.value) <= Distance(input, candidates[j]))
                && (forall j | 0 <= j < k :: Distance(input, best.value) < Distance(input, candidates[j]))
  {
    best := None;
    var bestDistance := threshold + 1;
    ghost var at := 0;
    for i := 0 to |candidates|
      invariant best.None? ==> bestDistance == threshold + 1 && forall j | 0 <= j < i :: Distance(input, candidates[j]) > threshold
      invariant best.Some? ==>
                  && 0 <= at < i && candidates[at] == best.value && bestDistance == Distance(input, best.value) <= threshold
                  && (forall j | 0 <= j < i :: bestDistance <= Distance(input, candidates[j]))
                  && (forall j | 0 <= j < at :: bestDistance < Distance(input, candidates[j]))
    {
      var distance := DamerauLevenshtein(input, candidates[i]);
      if distance < bestDistance {
        bestDistance := distance;
        best := Some(candidates[i]);
        at := i;
      }
    }
    if best.Some? {
      assert candidates[at] in candidates;
    }
  }
}
