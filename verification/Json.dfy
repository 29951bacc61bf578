/** JSON values with their key order, what they mean without it, and the canonical form that is hashed. */
module Json {
  import opened Text

  datatype Json =
    | Null | Bool(on: bool) | Num(number: real) | Str(text: string)
    | Arr(items: seq<Json>) | Obj(entries: seq<Member>)

  datatype Member = Member(name: string, value: Json)

  /** A value up to the order of its keys. */
  datatype Data =
    | NullData | BoolData(on: bool) | NumData(number: real) | StrData(text: string)
    | ArrData(items: seq<Data>) | ObjData(members: map<string, Data>)

  function Meaning(v: Json): Data
    decreases v
  {
    match v
    case Null => NullData
    case Bool(on) => BoolData(on)
    case Num(number) => NumData(number)
    case Str(text) => StrData(text)
    case Arr(items) => ArrData(MeaningItems(items))
    case Obj(entries) => ObjData(MeaningEntries(entries))
  }

  function MeaningItems(items: seq<Json>): seq<Data>
    decreases items
  {
    if items == [] then [] else [Meaning(items[0])] + MeaningItems(items[1..])
  }

  function MeaningEntries(entries: seq<Member>): (m: map<string, Data>)
    ensures m.Keys == Names(entries)
    decreases entries
  {
    if entries == [] then map[]
    else map[entries[0].name := Meaning(entries[0].value)] + MeaningEntries(entries[1..])
  }

  function Names(entries: seq<Member>): set<string> {
    if entries == [] then {} else {entries[0].name} + Names(entries[1..])
  }

  /** No object repeats a name, at any depth. */
  predicate Proper(v: Json)
    decreases v
  {
    match v
    case Arr(items) => ProperItems(items)
    case Obj(entries) => ProperEntries(entries)
    case _ => true
  }

  predicate ProperItems(items: seq<Json>)
    decreases items
  {
    items == [] || (Proper(items[0]) && ProperItems(items[1..]))
  }

  predicate ProperEntries(entries: seq<Member>)
    decreases entries
  {
    entries == [] ||
    (entries[0].name !in Names(entries[1..]) && Proper(entries[0].value) && ProperEntries(entries[1..]))
  }

  // ---------- the canonical form ----------

  /** Sorts by name, keeping the order of equal names. */
  function Insert(collate: Collation, e: Member, sorted: seq<Member>): seq<Member> {
    if sorted == [] then [e]
    else if collate(e.name) <= collate(sorted[0].name) then [e] + sorted
    else [sorted[0]] + Insert(collate, e, sorted[1..])
  }

  function SortKeysDeep(collate: Collation, v: Json): Json
    decreases v
  {
    match v
    case Arr(items) => Arr(SortItems(collate, items))
    case Obj(entries) => Obj(SortEntries(collate, entries))
    case _ => v
  }

  function SortItems(collate: Collation, items: seq<Json>): seq<Json>
    decreases items
  {
    if items == [] then [] else [SortKeysDeep(collate, items[0])] + SortItems(collate, items[1..])
  }

  function SortEntries(collate: Collation, entries: seq<Member>): seq<Member>
    decreases entries
  {
    if entries == [] then []
    else Insert(collate, Member(entries[0].name, SortKeysDeep(collate, entries[0].value)), SortEntries(collate, entries[1..]))
  }

  /** Names strictly increase, at every depth. */
  predicate Canonical(collate: Collation, v: Json)
    decreases v
  {
    match v
    case Arr(items) => CanonicalItems(collate, items)
    case Obj(entries) => CanonicalEntries(collate, entries)
    case _ => true
  }

  predicate CanonicalItems(collate: Collation, items: seq<Json>)
    decreases items
  {
    items == [] || (Canonical(collate, items[0]) && CanonicalItems(collate, items[1..]))
  }

  predicate CanonicalEntries(collate: Collation, entries: seq<Member>)
    decreases entries
  {
    entries == [] ||
    (&& (forall later | later in Names(entries[1..]) :: collate(entries[0].name) < collate(later))
     && Canonical(collate, entries[0].value) && CanonicalEntries(collate, entries[1..]))
  }

  lemma {:induction false} InsertNames(collate: Collation, e: Member, sorted: seq<Member>)
    ensures Names(Insert(collate, e, sorted)) == {e.name} + Names(sorted)
    decreases |sorted|
  {
    if sorted == [] {
      assert [e][1..] == [];
    } else if collate(e.name) <= collate(sorted[0].name) {
      assert ([e] + sorted)[1..] == sorted;
    } else {
      InsertNames(collate, e, sorted[1..]);
      var r := Insert(collate, e, sorted);
      assert r[0] == sorted[0] && r[1..] == Insert(collate, e, sorted[1..]);
    }
  }

  lemma {:induction false} InsertMeans(collate: Collation, e: Member, sorted: seq<Member>)
    requires e.name !in Names(sorted)
    ensures MeaningEntries(Insert(collate, e, sorted)) == map[e.name := Meaning(e.value)] + MeaningEntries(sorted)
    decreases |sorted|
  {
    hide Meaning;
    if sorted == [] {
      assert [e][1..] == [];
    } else if collate(e.name) <= collate(sorted[0].name) {
      assert ([e] + sorted)[1..] == sorted;
    } else {
      InsertMeans(collate, e, sorted[1..]);
      var r := Insert(collate, e, sorted);
      assert r[0] == sorted[0] && r[1..] == Insert(collate, e, sorted[1..]);
      PutSwap(e.name, Meaning(e.value), sorted[0].name, Meaning(sorted[0].value), MeaningEntries(sorted[1..]));
    }
  }

  lemma PutSwap(a: string, v: Data, b: string, w: Data, rest: map<string, Data>)
    requires a != b
    ensures map[b := w] + (map[a := v] + rest) == map[a := v] + (map[b := w] + rest)
  {
  }

  lemma {:induction false} InsertSorts(collate: Collation, e: Member, sorted: seq<Member>)
    requires Total(collate) && CanonicalEntries(collate, sorted) && Canonical(collate, e.value) && e.name !in Names(sorted)
    ensures CanonicalEntries(collate, Insert(collate, e, sorted))
    decreases |sorted|
  {
    hide Canonical, Meaning, MeaningEntries;
    if sorted == [] {
      assert [e][1..] == [];
    } else if collate(e.name) <= collate(sorted[0].name) {
      assert ([e] + sorted)[1..] == sorted;
      assert collate(e.name) != collate(sorted[0].name);
    } else {
      InsertSorts(collate, e, sorted[1..]);
      InsertNames(collate, e, sorted[1..]);
      var r := Insert(collate, e, sorted);
      assert r[0] == sorted[0] && r[1..] == Insert(collate, e, sorted[1..]);
    }
  }

  /** Sorting changes the order of names and nothing else. */
  lemma {:induction false} SortKeeps(collate: Collation, v: Json)
    requires Total(collate) && Proper(v)
    ensures Canonical(collate, SortKeysDeep(collate, v)) && Meaning(SortKeysDeep(collate, v)) == Meaning(v)
    decreases v
  {
    match v
    case Arr(items) => SortItemsKeep(collate, items);
    case Obj(entries) => SortEntriesKeep(collate, entries);
    case _ =>
  }

  lemma {:induction false} SortItemsKeep(collate: Collation, items: seq<Json>)
    requires Total(collate) && ProperItems(items)
    ensures CanonicalItems(collate, SortItems(collate, items)) && MeaningItems(SortItems(collate, items)) == MeaningItems(items)
    decreases items
  {
    if items != [] {
      SortKeeps(collate, items[0]);
      SortItemsKeep(collate, items[1..]);
      assert SortItems(collate, items)[1..] == SortItems(collate, items[1..]);
    }
  }

  lemma {:induction false} SortEntriesKeep(collate: Collation, entries: seq<Member>)
    requires Total(collate) && ProperEntries(entries)
    ensures var r := SortEntries(collate, entries);
            CanonicalEntries(collate, r) && MeaningEntries(r) == MeaningEntries(entries) && Names(r) == Names(entries)
    decreases entries
  {
    if entries != [] {
      var e := Member(entries[0].name, SortKeysDeep(collate, entries[0].value));
      SortKeeps(collate, entries[0].value);
      SortEntriesKeep(collate, entries[1..]);
      InsertSorts(collate, e, SortEntries(collate, entries[1..]));
      InsertMeans(collate, e, SortEntries(collate, entries[1..]));
      InsertNames(collate, e, SortEntries(collate, entries[1..]));
    }
  }

  lemma HeadAndTail(a: seq<Member>, b: seq<Member>)
    requires a != [] && b != [] && a[0].name == b[0].name && MeaningEntries(a) == MeaningEntries(b)
    requires a[0].name !in Names(a[1..]) && a[0].name !in Names(b[1..])
    ensures Meaning(a[0].value) == Meaning(b[0].value) && MeaningEntries(a[1..]) == MeaningEntries(b[1..])
  {
    hide Meaning;
    var name := a[0].name;
    assert Meaning(a[0].value) == MeaningEntries(a)[name] == MeaningEntries(b)[name] == Meaning(b[0].value);
    assert MeaningEntries(a[1..]) == MeaningEntries(a) - {name};
    assert MeaningEntries(b[1..]) == MeaningEntries(b) - {name};
  }

  /** There is one canonical form for each meaning. */
  lemma {:induction false} CanonicalUnique(collate: Collation, v: Json, w: Json)
    requires Total(collate) && Canonical(collate, v) && Canonical(collate, w) && Meaning(v) == Meaning(w)
    ensures v == w
    decreases v
  {
    match v
    case Arr(items) => CanonicalItemsUnique(collate, items, w.items);
    case Obj(entries) => CanonicalEntriesUnique(collate, entries, w.entries);
    case _ =>
  }

  lemma {:induction false} CanonicalItemsUnique(collate: Collation, a: seq<Json>, b: seq<Json>)
    requires Total(collate) && CanonicalItems(collate, a) && CanonicalItems(collate, b) && MeaningItems(a) == MeaningItems(b)
    ensures a == b
    decreases a
  {
    if a != [] && b != [] {
      assert Meaning(a[0]) == MeaningItems(a)[0] == MeaningItems(b)[0] == Meaning(b[0]);
      assert MeaningItems(a[1..]) == MeaningItems(a)[1..] == MeaningItems(b)[1..] == MeaningItems(b[1..]);
      CanonicalUnique(collate, a[0], b[0]);
      CanonicalItemsUnique(collate, a[1..], b[1..]);
      assert a == [a[0]] + a[1..] && b == [b[0]] + b[1..];
    }
  }

  lemma {:induction false} CanonicalEntriesUnique(collate: Collation, a: seq<Member>, b: seq<Member>)
    requires Total(collate) && CanonicalEntries(collate, a) && CanonicalEntries(collate, b)
    requires MeaningEntries(a) == MeaningEntries(b)
    ensures a == b
    decreases a
  {
    assert Names(a) == MeaningEntries(a).Keys == MeaningEntries(b).Keys == Names(b);
    if a != [] && b != [] {
      var Member(name, value) := a[0];
      var Member(other, value') := b[0];
      assert name in Names(b) && other in Names(a);
      assert name == other;
      HeadAndTail(a, b);
      CanonicalUnique(collate, value, value');
      CanonicalEntriesUnique(collate, a[1..], b[1..]);
      assert a == [a[0]] + a[1..] && b == [b[0]] + b[1..];
    } else {
      assert a == [] <==> Names(a) == {};
      assert b == [] <==> Names(b) == {};
    }
  }

  /** Canonical forms agree exactly when the values agree up to key order, at every depth. */
  lemma CanonicalMeansEqual(collate: Collation, v: Json, w: Json)
    requires Total(collate) && Proper(v) && Proper(w)
    ensures SortKeysDeep(collate, v) == SortKeysDeep(collate, w) <==> Meaning(v) == Meaning(w)
  {
    SortKeeps(collate, v);
    SortKeeps(collate, w);
    if Meaning(v) == Meaning(w) {
      CanonicalUnique(collate, SortKeysDeep(collate, v), SortKeysDeep(collate, w));
    }
  }
}
