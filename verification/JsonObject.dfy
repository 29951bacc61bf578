/** JSON objects as the source edits them in place: assignment keeps a key's position or appends it. */
module JsonObject {
  import opened Wrappers
  import opened Json

  type Object = seq<Member>

  predicate Unique(o: Object) {
    forall i, j | 0 <= i < j < |o| :: o[i].name != o[j].name
  }

  function NameList(o: Object): seq<string> {
    seq(|o|, i requires 0 <= i < |o| => o[i].name)
  }

  /** The position of a name, or the size of the object. */
  function Find(o: Object, name: string): (k: nat)
    ensures k <= |o|
    ensures k < |o| ==> o[k].name == name
    ensures forall i | 0 <= i < k :: o[i].name != name
  {
    if o == [] || o[0].name == name then 0 else 1 + Find(o[1..], name)
  }

  function Lookup(o: Object, name: string): Option<Json> {
    if Find(o, name) < |o| then Some(o[Find(o, name)].value) else None
  }

  function Put(o: Object, name: string, value: Json): Object {
    var k := Find(o, name);
    if k < |o| then o[k := Member(name, value)] else o + [Member(name, value)]
  }

  function Drop(o: Object, name: string): Object {
    var k := Find(o, name);
    if k < |o| then o[..k] + o[k + 1..] else o
  }

  lemma FindIs(o: Object, k: nat)
    requires Unique(o) && k < |o|
    ensures Find(o, o[k].name) == k
  {
  }

  lemma FindsFirst(o: Object, name: string, k: nat)
    requires k < |o| && o[k].name == name && forall i | 0 <= i < k :: o[i].name != name
    ensures Find(o, name) == k
  {
  }

  lemma FindsNone(o: Object, name: string)
    requires forall i | 0 <= i < |o| :: o[i].name != name
    ensures Find(o, name) == |o|
  {
  }

  lemma PutKeepsUnique(o: Object, name: string, value: Json)
    requires Unique(o)
    ensures Unique(Put(o, name, value))
    ensures NameList(Put(o, name, value)) == if Find(o, name) < |o| then NameList(o) else NameList(o) + [name]
  {
    var p := Put(o, name, value);
    forall i, j | 0 <= i < j < |p| ensures p[i].name != p[j].name {
      assert j < |o| ==> p[i].name == o[i].name && p[j].name == o[j].name;
    }
  }

  lemma PutLooksUp(o: Object, name: string, value: Json, other: string)
    requires Unique(o)
    ensures Unique(Put(o, name, value))
    ensures Lookup(Put(o, name, value), other) == if other == name then Some(value) else Lookup(o, other)
    ensures NameList(Put(o, name, value)) == if Find(o, name) < |o| then NameList(o) else NameList(o) + [name]
  {
    PutKeepsUnique(o, name, value);
    hide Unique, NameList;
    var p, n, k := Put(o, name, value), Find(o, name), Find(o, other);
    assert forall i | 0 <= i < |p| :: p[i] == if i == n then Member(name, value) else o[i];
    if other == name {
      FindsFirst(p, name, n);
    } else if k < |o| {
      FindsFirst(p, other, k);
    } else {
      FindsNone(p, other);
    }
  }

  lemma DropKeepsUnique(o: Object, name: string)
    requires Unique(o)
    ensures Unique(Drop(o, name))
  {
    var d, n := Drop(o, name), Find(o, name);
    forall i, j | 0 <= i < j < |d| ensures d[i].name != d[j].name {
      var i', j' := if i < n then i else i + 1, if j < n then j else j + 1;
      assert d[i] == o[i'] && d[j] == o[j'] && i' < j';
    }
  }

  lemma DropLooksUp(o: Object, name: string, other: string)
    requires Unique(o)
    ensures Unique(Drop(o, name))
    ensures Lookup(Drop(o, name), other) == if other == name then None else Lookup(o, other)
  {
    DropKeepsUnique(o, name);
    var d, n, k := Drop(o, name), Find(o, name), Find(o, other);
    assert forall i | 0 <= i < |d| :: d[i] == o[if i < n then i else i + 1];
    if other == name {
      FindsNone(d, name);
    } else {
      hide Unique;
      if k < |o| {
        FindsFirst(d, other, if n < |o| && n < k then k - 1 else k);
      } else {
        FindsNone(d, other);
      }
    }
  }

  /** Two objects with the same keys in the same order and the same values are the same. */
  lemma SameObject(a: Object, b: Object)
    requires Unique(a) && Unique(b) && NameList(a) == NameList(b)
    requires forall name :: Lookup(a, name) == Lookup(b, name)
    ensures a == b
  {
    assert |a| == |NameList(a)| == |b|;
    forall i | 0 <= i < |a| ensures a[i] == b[i] {
      assert NameList(a)[i] == NameList(b)[i];
      FindIs(a, i);
      FindIs(b, i);
      assert Lookup(a, a[i].name) == Lookup(b, a[i].name);
    }
  }

  lemma PutTwice(o: Object, name: string, first: Json, second: Json)
    ensures Put(Put(o, name, first), name, second) == Put(o, name, second)
  {
    FindsFirst(Put(o, name, first), name, Find(o, name));
  }

  lemma DropPut(o: Object, name: string, value: Json)
    ensures Drop(Put(o, name, value), name) == Drop(o, name)
  {
    FindsFirst(Put(o, name, value), name, Find(o, name));
  }
}
