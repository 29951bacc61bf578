/** The order in which detected listeners are preferred, and the one kept per port number. */
module PortOrder {
  import opened Text

  datatype PortInfo = PortInfo(port: nat, pid: nat, address: string, processName: string)

  /** Loopback first, then wildcard, other IPv4, and IPv6 in the same order. */
  function AddressRank(address: string): nat {
    var a := Lower(address);
    if a == "127.0.0.1" || a == "localhost" then 0
    else if a == "0.0.0.0" || a == "*" then 1
    else if ':' !in a then 2
    else if a == "::1" || a == "0:0:0:0:0:0:0:1" then 3
    else if a == "::" || a == "0:0:0:0:0:0:0:0" then 4
    else 5
  }

  /** Negative, zero or positive, field by field. */
  function Compare(collate: Collation, a: PortInfo, b: PortInfo): real {
    if a.port != b.port then (a.port - b.port) as real
    else if a.pid != b.pid then (a.pid - b.pid) as real
    else if collate(a.processName) != collate(b.processName) then collate(a.processName) - collate(b.processName)
    else if AddressRank(a.address) != AddressRank(b.address) then (AddressRank(a.address) - AddressRank(b.address)) as real
    else collate(a.address) - collate(b.address)
  }

  lemma CompareTotal(collate: Collation, a: PortInfo, b: PortInfo, c: PortInfo)
    ensures Compare(collate, a, b) < 0.0 <==> Compare(collate, b, a) > 0.0
    ensures Compare(collate, a, b) <= 0.0 && Compare(collate, b, c) <= 0.0 ==> Compare(collate, a, c) <= 0.0
    ensures Compare(collate, a, b) < 0.0 && Compare(collate, b, c) <= 0.0 ==> Compare(collate, a, c) < 0.0
    ensures Total(collate) && Compare(collate, a, b) == 0.0 ==> a == b
  {
    hide AddressRank;
  }

  /** Of two listeners on a port the lower process wins; for one process the name decides, then the address. */
  lemma PreferenceOrder(collate: Collation, a: PortInfo, b: PortInfo)
    requires a.port == b.port
    ensures a.pid < b.pid ==> Compare(collate, a, b) < 0.0
    ensures a.pid == b.pid && collate(a.processName) < collate(b.processName) ==> Compare(collate, a, b) < 0.0
    ensures a.pid == b.pid && a.processName == b.processName && a.address == "127.0.0.1" && b.address == "0.0.0.0" ==>
              Compare(collate, a, b) < 0.0
    ensures a.pid == b.pid && a.processName == b.processName && a.address == "0.0.0.0" && b.address == "192.168.1.2" ==>
              Compare(collate, a, b) < 0.0
    ensures a.pid == b.pid && a.processName == b.processName && a.address == "192.168.1.2" && b.address == "::1" ==>
              Compare(collate, a, b) < 0.0
    ensures a.pid == b.pid && a.processName == b.processName && a.address == "::1" && b.address == "::" ==>
              Compare(collate, a, b) < 0.0
    ensures a.pid == b.pid && a.processName == b.processName && a.address == "::" && b.address == "fe80::1" ==>
              Compare(collate, a, b) < 0.0
  {
    AddressRanks();
  }

  lemma AddressRanks()
    ensures AddressRank("127.0.0.1") == AddressRank("localhost") == 0 && AddressRank("0.0.0.0") == AddressRank("*") == 1
    ensures AddressRank("192.168.1.2") == 2 && AddressRank("::1") == 3 && AddressRank("::") == 4 && AddressRank("fe80::1") == 5
  {
    LowerSame("127.0.0.1");
    LowerSame("localhost");
    LowerSame("0.0.0.0");
    LowerSame("*");
    LowerSame("192.168.1.2");
    LowerSame("::1");
    LowerSame("::");
    LowerSame("fe80::1");
    assert "::1"[0] == ':' && "::"[0] == ':' && "fe80::1"[4] == ':';
    assert |"fe80::1"| == 7 && |"192.168.1.2"| == 11;
  }

  lemma LowerSame(s: string)
    requires forall c | c in s :: !('A' <= c <= 'Z')
    ensures Lower(s) == s
  {
    assert forall i | 0 <= i < |s| :: s[i] in s;
  }

  // ---------- what deduplication means ----------

  ghost predicate Preferred(collate: Collation, infos: seq<PortInfo>, info: PortInfo) {
    info in infos && forall other | other in infos && other.port == info.port :: Compare(collate, info, other) <= 0.0
  }

  predicate PortsIncrease(infos: seq<PortInfo>) {
    forall i, j | 0 <= i < j < |infos| :: infos[i].port < infos[j].port
  }

  /** One entry a port, in increasing port order, each the preferred listener of its port. */
  ghost predicate Deduped(collate: Collation, infos: seq<PortInfo>, result: seq<PortInfo>) {
    && PortsIncrease(result)
    && (forall info | info in result :: Preferred(collate, infos, info))
    && (forall info | info in infos :: exists r | r in result :: r.port == info.port)
  }

  /** The result depends on nothing but which listeners were seen. */
  lemma DedupedUnique(collate: Collation, xs: seq<PortInfo>, ys: seq<PortInfo>, a: seq<PortInfo>, b: seq<PortInfo>)
    requires Total(collate) && forall x :: x in xs <==> x in ys
    requires Deduped(collate, xs, a) && Deduped(collate, ys, b)
    ensures a == b
  {
    SameMembers(collate, xs, ys, a, b);
    SameMembers(collate, ys, xs, b, a);
    IncreasingUnique(a, b);
  }

  lemma SameMembers(collate: Collation, xs: seq<PortInfo>, ys: seq<PortInfo>, a: seq<PortInfo>, b: seq<PortInfo>)
    requires Total(collate) && (forall x :: x in xs <==> x in ys)
    requires Deduped(collate, xs, a) && Deduped(collate, ys, b)
    ensures forall x | x in a :: x in b
  {
    hide Preferred, Total;
    forall x | x in a ensures x in b {
      assert Preferred(collate, xs, x);
      PreferredIn(collate, xs, x);
      var r :| r in b && r.port == x.port;
      assert Preferred(collate, ys, r);
      PreferredSame(collate, ys, xs, r);
      OnePreferred(collate, xs, x, r);
    }
  }

  lemma PreferredIn(collate: Collation, xs: seq<PortInfo>, x: PortInfo)
    ensures Preferred(collate, xs, x) ==> x in xs
  {
  }

  lemma PreferredSame(collate: Collation, xs: seq<PortInfo>, ys: seq<PortInfo>, x: PortInfo)
    requires (forall y :: y in xs <==> y in ys) && Preferred(collate, xs, x)
    ensures Preferred(collate, ys, x)
  {
    hide Compare;
  }

  /** A port has one preferred listener. */
  lemma OnePreferred(collate: Collation, xs: seq<PortInfo>, x: PortInfo, y: PortInfo)
    requires Total(collate) && Preferred(collate, xs, x) && Preferred(collate, xs, y) && x.port == y.port
    ensures x == y
  {
    hide Compare, Total;
    CompareTotal(collate, x, y, x);
  }

  lemma TailMember(a: seq<PortInfo>, b: seq<PortInfo>, x: PortInfo)
    requires PortsIncrease(a) && a != [] && b != [] && a[0] == b[0] && x in a[1..] && x in b
    ensures x in b[1..]
  {
    var i :| 0 < i < |a| && a[i] == x;
    assert a[0].port < a[i].port;
    assert b == [b[0]] + b[1..];
  }

  lemma TailDiffers(a: seq<PortInfo>, x: PortInfo)
    requires PortsIncrease(a) && a != [] && x in a[1..]
    ensures a[0].port < x.port
  {
    var i :| 0 <= i < |a| - 1 && a[1..][i] == x;
    assert a[i + 1] == x;
  }

  lemma FirstIsLeast(a: seq<PortInfo>, x: PortInfo)
    requires PortsIncrease(a) && x in a
    ensures a[0].port <= x.port && (a[0].port == x.port ==> x == a[0])
  {
    var i :| 0 <= i < |a| && a[i] == x;
  }

  lemma {:induction false} IncreasingUnique(a: seq<PortInfo>, b: seq<PortInfo>)
    requires PortsIncrease(a) && PortsIncrease(b)
    requires forall x | x in a :: x in b
    requires forall x | x in b :: x in a
    ensures a == b
  {
    assert b != [] ==> b[0] in b && b[0] in a;
    if a != [] {
      assert a[0] in b && b[0] in a;
      FirstIsLeast(a, b[0]);
      FirstIsLeast(b, a[0]);
      TailIncreases(a);
      TailIncreases(b);
      hide PortsIncrease;
      forall x | x in a[1..] ensures x in b[1..] {
        TailMember(a, b, x);
      }
      forall x | x in b[1..] ensures x in a[1..] {
        TailMember(b, a, x);
      }
      IncreasingUnique(a[1..], b[1..]);
      assert a == [a[0]] + a[1..] && b == [b[0]] + b[1..];
    }
  }

  lemma TailIncreases(a: seq<PortInfo>)
    requires PortsIncrease(a) && a != []
    ensures PortsIncrease(a[1..])
  {
  }

  // ---------- the procedure ----------

  /** Where the sort puts a listener whose port is not there yet. */
  function Insert(collate: Collation, sorted: seq<PortInfo>, info: PortInfo): seq<PortInfo> {
    if sorted == [] || Compare(collate, info, sorted[0]) < 0.0 then [info] + sorted
    else [sorted[0]] + Insert(collate, sorted[1..], info)
  }

  lemma ComparePorts(collate: Collation, a: PortInfo, b: PortInfo)
    requires a.port != b.port
    ensures Compare(collate, a, b) < 0.0 <==> a.port < b.port
  {
  }

  lemma {:induction false} InsertMembers(collate: Collation, sorted: seq<PortInfo>, info: PortInfo)
    ensures forall x :: x in Insert(collate, sorted, info) <==> x in sorted || x == info
  {
    hide Compare;
    if sorted != [] {
      InsertMembers(collate, sorted[1..], info);
      assert sorted == [sorted[0]] + sorted[1..];
    }
  }

  lemma {:induction false} InsertIncreasing(collate: Collation, sorted: seq<PortInfo>, info: PortInfo)
    requires PortsIncrease(sorted)
    requires forall x | x in sorted :: x.port != info.port
    ensures var r := Insert(collate, sorted, info);
            && PortsIncrease(r)
            && (forall x :: x in r <==> x in sorted || x == info)
  {
    hide Compare;
    InsertMembers(collate, sorted, info);
    if sorted != [] {
      assert sorted[0] in sorted;
      ComparePorts(collate, info, sorted[0]);
      if info.port > sorted[0].port {
        var rest := Insert(collate, sorted[1..], info);
        assert forall x | x in sorted[1..] :: x in sorted;
        InsertIncreasing(collate, sorted[1..], info);
        forall x | x in rest ensures sorted[0].port < x.port {
          if x != info {
            TailDiffers(sorted, x);
          }
        }
        assert Insert(collate, sorted, info) == [sorted[0]] + rest;
      }
    }
  }

  method DedupePortInfosByPort(collate: Collation, infos: seq<PortInfo>) returns (result: seq<PortInfo>)
    ensures Deduped(collate, infos, result)
  {
    hide AddressRank; hide Compare;
    var portsByNumber: map<nat, PortInfo> := map[];
    for i := 0 to |infos|
      invariant forall p | p in portsByNumber :: portsByNumber[p].port == p && Preferred(collate, infos[..i], portsByNumber[p])
      invariant forall info | info in infos[..i] :: info.port in portsByNumber
    {
      var info := infos[i];
      assert infos[..i + 1] == infos[..i] + [info];
      ghost var before := portsByNumber;
      if info.port !in portsByNumber || Compare(collate, info, portsByNumber[info.port]) < 0.0 {
        portsByNumber := portsByNumber[info.port := info];
      }
      KeepPreferred(collate, infos[..i], info, before, portsByNumber);
    }
    assert infos[..|infos|] == infos;
    result := [];
    var left := portsByNumber.Keys;
    while left != {}
      invariant left <= portsByNumber.Keys
      invariant PortsIncrease(result)
      invariant forall x :: x in result <==> x.port in portsByNumber.Keys - left && portsByNumber[x.port] == x
      decreases left
    {
      var p :| p in left;
      InsertIncreasing(collate, result, portsByNumber[p]);
      result := Insert(collate, result, portsByNumber[p]);
      left := left - {p};
    }
    forall info | info in infos ensures exists r | r in result :: r.port == info.port {
      assert portsByNumber[info.port] in result;
    }
  }

  lemma KeepPreferred(collate: Collation, seen: seq<PortInfo>, info: PortInfo, was: map<nat, PortInfo>, now: map<nat, PortInfo>)
    requires forall p | p in was :: was[p].port == p && Preferred(collate, seen, was[p])
    requires forall x | x in seen :: x.port in was
    requires now == if info.port !in was || Compare(collate, info, was[info.port]) < 0.0 then was[info.port := info] else was
    ensures forall p | p in now :: now[p].port == p && Preferred(collate, seen + [info], now[p])
    ensures forall x | x in seen + [info] :: x.port in now
  {
    hide AddressRank; hide Compare;
    forall p | p in now ensures now[p].port == p && Preferred(collate, seen + [info], now[p]) {
      forall other | other in seen + [info] && other.port == now[p].port ensures Compare(collate, now[p], other) <= 0.0 {
        CompareTotal(collate, now[p], other, other);
        CompareTotal(collate, other, now[p], other);
        if p in was {
          CompareTotal(collate, now[p], was[p], other);
          CompareTotal(collate, other, other, other);
          CompareSelf(collate, other);
        } else {
          CompareSelf(collate, other);
        }
      }
    }
  }

  lemma CompareSelf(collate: Collation, a: PortInfo)
    ensures Compare(collate, a, a) == 0.0
  {
  }
}
