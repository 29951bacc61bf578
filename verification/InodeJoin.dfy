/** Matching listening sockets to processes on Linux, whatever order the file reads complete in. */
module InodeJoin {
  import opened PortOrder
  import opened Text

  /** A successful fd read: the process holds the socket inode open. */
  datatype Holding = Holding(pid: nat, inode: nat)
  datatype Listener = Listener(port: nat, inode: nat, address: string)

  /** The position of each pid in the caller's list; a repeated pid has its last position. */
  function PidRank(pids: seq<nat>): map<nat, nat> {
    if pids == [] then map[]
    else PidRank(pids[..|pids| - 1])[pids[|pids| - 1] := |pids| - 1]
  }

  lemma {:induction false} PidRankInjective(pids: seq<nat>)
    ensures forall p :: p in PidRank(pids) <==> p in pids
    ensures forall p | p in PidRank(pids) :: PidRank(pids)[p] < |pids| && pids[PidRank(pids)[p]] == p
  {
    if pids != [] {
      var init := pids[..|pids| - 1];
      PidRankInjective(init);
      assert pids == init + [pids[|pids| - 1]];
    }
  }

  /** A pid without a position ranks after all others. */
  predicate RanksBefore(rank: map<nat, nat>, p: nat, q: nat) {
    p in rank && (q in rank ==> rank[p] < rank[q])
  }

  /** `pid` is the best-ranked process seen holding `inode`. */
  ghost predicate LeastHolder(rank: map<nat, nat>, held: seq<Holding>, inode: nat, pid: nat) {
    Holding(pid, inode) in held && forall q | Holding(q, inode) in held :: !RanksBefore(rank, q, pid)
  }

  ghost predicate Joined(rank: map<nat, nat>, held: seq<Holding>, inodeToPid: map<nat, nat>) {
    && (forall r | r in held :: r.inode in inodeToPid)
    && (forall inode | inode in inodeToPid :: LeastHolder(rank, held, inode, inodeToPid[inode]))
  }

  /** The reads take effect in the order they complete. */
  method BuildInodeToPid(rank: map<nat, nat>, completions: seq<Holding>) returns (inodeToPid: map<nat, nat>)
    ensures Joined(rank, completions, inodeToPid)
  {
    inodeToPid := map[];
    for i := 0 to |completions|
      invariant Joined(rank, completions[..i], inodeToPid)
    {
      var r := completions[i];
      assert completions[..i + 1] == completions[..i] + [r];
      if r.inode !in inodeToPid || RanksBefore(rank, r.pid, inodeToPid[r.inode]) {
        inodeToPid := inodeToPid[r.inode := r.pid];
      }
    }
    assert completions[..|completions|] == completions;
  }

  /** Every completion order gives each inode the same holder. */
  lemma JoinedUnique(pids: seq<nat>, a: seq<Holding>, b: seq<Holding>, x: map<nat, nat>, y: map<nat, nat>)
    requires multiset(a) == multiset(b)
    requires forall r | r in a :: r.pid in pids
    requires Joined(PidRank(pids), a, x) && Joined(PidRank(pids), b, y)
    ensures x == y
  {
    PidRankInjective(pids);
    forall r: Holding ensures r in a <==> r in b {
      assert r in a <==> r in multiset(a);
      assert r in b <==> r in multiset(b);
    }
    forall inode | inode in x ensures inode in y && x[inode] == y[inode] {
      assert LeastHolder(PidRank(pids), a, inode, x[inode]);
      assert Holding(x[inode], inode) in b;
      assert LeastHolder(PidRank(pids), b, inode, y[inode]);
    }
    forall inode | inode in y ensures inode in x {
      assert Holding(y[inode], inode) in a;
    }
  }

  /** The listeners whose socket some process of the list holds, in listing order. */
  function Match(inodeToPid: map<nat, nat>, names: nat -> string, listeners: seq<Listener>): seq<PortInfo> {
    if listeners == [] then []
    else
      var before := Match(inodeToPid, names, listeners[..|listeners| - 1]);
      var l := listeners[|listeners| - 1];
      if l.inode in inodeToPid then before + [PortInfo(l.port, inodeToPid[l.inode], l.address, names(inodeToPid[l.inode]))]
      else before
  }

  method GetListeningPorts(pids: seq<nat>, completions: seq<Holding>, listeners: seq<Listener>, names: nat -> string)
    returns (matches: seq<PortInfo>)
    ensures exists inodeToPid ::
              Joined(PidRank(pids), completions, inodeToPid) && matches == Match(inodeToPid, names, listeners)
  {
    var inodeToPid := BuildInodeToPid(PidRank(pids), completions);
    matches := [];
    for i := 0 to |listeners|
      invariant matches == Match(inodeToPid, names, listeners[..i])
    {
      assert listeners[..i + 1][..i] == listeners[..i];
      var l := listeners[i];
      if l.inode in inodeToPid {
        var pid := inodeToPid[l.inode];
        matches := matches + [PortInfo(l.port, pid, l.address, names(pid))];
      }
    }
    assert listeners[..|listeners|] == listeners;
  }

  predicate Yields(inodeToPid: map<nat, nat>, names: nat -> string, l: Listener, info: PortInfo) {
    l.inode in inodeToPid && info == PortInfo(l.port, inodeToPid[l.inode], l.address, names(inodeToPid[l.inode]))
  }

  lemma {:induction false} MatchMembers(inodeToPid: map<nat, nat>, names: nat -> string, listeners: seq<Listener>, info: PortInfo)
    ensures info in Match(inodeToPid, names, listeners) <==> exists l :: l in listeners && Yields(inodeToPid, names, l, info)
  {
    if listeners != [] {
      var init, l := listeners[..|listeners| - 1], listeners[|listeners| - 1];
      MatchMembers(inodeToPid, names, init, info);
      assert listeners == init + [l];
      assert listeners[|listeners| - 1] in listeners;
      assert forall m :: m in listeners <==> m in init || m == l;
      assert info in Match(inodeToPid, names, listeners) <==>
               info in Match(inodeToPid, names, init) || Yields(inodeToPid, names, l, info);
      if Yields(inodeToPid, names, l, info) {
        assert l in listeners && Yields(inodeToPid, names, l, info);
      }
      if m :| m in init && Yields(inodeToPid, names, m, info) {
        assert m in listeners;
      }
    } else {
      assert info !in Match(inodeToPid, names, listeners);
      assert forall m: Listener :: m !in listeners;
    }
  }

  /**
   * Two scans that saw the same reads and the same listener rows, each in its own order, report the
   * same ports: one entry a port, in port order.
   */
  lemma ScanOrderIndependent(collate: Collation, pids: seq<nat>, names: nat -> string,
                             a: seq<Holding>, b: seq<Holding>, x: map<nat, nat>, y: map<nat, nat>,
                             rows: seq<Listener>, rows': seq<Listener>, shown: seq<PortInfo>, shown': seq<PortInfo>)
    requires Total(collate) && multiset(a) == multiset(b) && multiset(rows) == multiset(rows')
    requires forall r | r in a :: r.pid in pids
    requires Joined(PidRank(pids), a, x) && Joined(PidRank(pids), b, y)
    requires Deduped(collate, Match(x, names, rows), shown) && Deduped(collate, Match(y, names, rows'), shown')
    ensures shown == shown'
  {
    JoinedUnique(pids, a, b, x, y);
    forall info ensures info in Match(x, names, rows) <==> info in Match(y, names, rows') {
      MatchMembers(x, names, rows, info);
      MatchMembers(y, names, rows', info);
      forall l: Listener ensures l in rows <==> l in rows' {
        assert l in rows <==> l in multiset(rows);
        assert l in rows' <==> l in multiset(rows');
      }
    }
    DedupedUnique(collate, Match(x, names, rows), Match(y, names, rows'), shown, shown');
  }
}
