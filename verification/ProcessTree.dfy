/** The processes below each terminal, read off one process table. */
module ProcessTree {
  datatype Row = Row(pid: nat, ppid: nat)

  // ---------- reachability by parent links ----------

  ghost predicate Path(table: seq<Row>, p: seq<nat>) {
    p != [] && forall i | 0 <= i < |p| - 1 :: Row(p[i + 1], p[i]) in table
  }

  ghost predicate PathTo(table: seq<Row>, p: seq<nat>, root: nat, pid: nat) {
    Path(table, p) && p[0] == root && p[|p| - 1] == pid
  }

  ghost predicate Reachable(table: seq<Row>, root: nat, pid: nat) {
    exists p :: PathTo(table, p, root, pid)
  }

  predicate Alive(table: seq<Row>, pid: nat) {
    exists i | 0 <= i < |table| :: table[i].pid == pid
  }

  predicate Distinct(s: seq<nat>) {
    forall i, j | 0 <= i < j < |s| :: s[i] != s[j]
  }

  lemma RootReachable(table: seq<Row>, root: nat)
    ensures Reachable(table, root, root)
  {
    assert PathTo(table, [root], root, root);
  }

  lemma ChildReachable(table: seq<Row>, root: nat, pid: nat, child: nat)
    requires Reachable(table, root, pid) && Row(child, pid) in table
    ensures Reachable(table, root, child)
  {
    var p :| PathTo(table, p, root, pid);
    assert PathTo(table, p + [child], root, child);
  }

  /** A set that holds the root and every child of a member holds all that is reachable. */
  lemma {:induction false} ClosedHoldsPath(table: seq<Row>, closed: set<nat>, root: nat, p: seq<nat>)
    requires root in closed && forall pid, child | pid in closed && Row(child, pid) in table :: child in closed
    requires Path(table, p) && p[0] == root
    ensures p[|p| - 1] in closed
  {
    if |p| > 1 {
      var init := p[..|p| - 1];
      assert Path(table, init);
      ClosedHoldsPath(table, closed, root, init);
      assert Row(p[|p| - 1], init[|init| - 1]) in table;
    }
  }

  // ---------- the procedure ----------

  /** Children by parent, in table order. */
  predicate Indexes(children: map<nat, seq<nat>>, table: seq<Row>) {
    && (forall row | row in table :: row.ppid in children && row.pid in children[row.ppid])
    && (forall ppid | ppid in children :: forall pid | pid in children[ppid] :: Row(pid, ppid) in table)
  }

  method IndexChildren(table: seq<Row>) returns (children: map<nat, seq<nat>>, alive: set<nat>)
    ensures Indexes(children, table)
    ensures forall pid :: pid in alive <==> Alive(table, pid)
  {
    children, alive := map[], {};
    for i := 0 to |table|
      invariant Indexes(children, table[..i])
      invariant forall pid :: pid in alive <==> Alive(table[..i], pid)
    {
      var row := table[i];
      assert table[..i + 1] == table[..i] + [row];
      assert table[..i + 1][i] == row;
      assert forall j | 0 <= j < i :: table[..i + 1][j] == table[..i][j];
      alive := alive + {row.pid};
      var siblings := if row.ppid in children then children[row.ppid] else [];
      children := children[row.ppid := siblings + [row.pid]];
    }
    assert table[..|table|] == table;
  }

  method CollectTree(root: nat, children: map<nat, seq<nat>>, ghost table: seq<Row>) returns (pids: seq<nat>)
    requires Indexes(children, table)
    ensures Distinct(pids) && forall pid :: pid in pids <==> Reachable(table, root, pid)
  {
    pids := [];
    var seen: set<nat> := {};
    var stack := [root];
    ghost var all := {root} + set i | 0 <= i < |table| :: table[i].pid;
    RootReachable(table, root);
    while stack != []
      invariant Distinct(pids) && (forall pid :: pid in seen <==> pid in pids)
      invariant root in seen || root in stack
      invariant seen <= all && forall pid | pid in stack :: pid in all
      invariant forall pid | pid in seen || pid in stack :: Reachable(table, root, pid)
      invariant forall pid, child | pid in seen && Row(child, pid) in table :: child in seen || child in stack
      decreases all - seen, |stack|
    {
      var pid := stack[|stack| - 1];
      ghost var before := stack;
      stack := stack[..|stack| - 1];
      assert before == stack + [pid];
      if pid in seen {
        continue;
      }
      seen := seen + {pid};
      pids := pids + [pid];
      var below := if pid in children then children[pid] else [];
      forall child | child in below ensures Reachable(table, root, child) && child in all {
        ChildReachable(table, root, pid, child);
        var i :| 0 <= i < |table| && table[i] == Row(child, pid);
      }
      stack := stack + below;
    }
    forall pid | Reachable(table, root, pid) ensures pid in pids {
      var p :| PathTo(table, p, root, pid);
      ClosedHoldsPath(table, seen, root, p);
    }
  }

  /** For each live root exactly the processes reachable from it, each once; dead roots are absent. */
  method GetProcessTreesForPids(roots: seq<nat>, table: seq<Row>) returns (trees: map<nat, seq<nat>>)
    ensures forall root :: root in trees <==> root in roots && Alive(table, root)
    ensures forall root | root in trees ::
              Distinct(trees[root]) && forall pid :: pid in trees[root] <==> Reachable(table, root, pid)
  {
    trees := map[];
    var children, alive := IndexChildren(table);
    for i := 0 to |roots|
      invariant forall root :: root in trees <==> root in roots[..i] && Alive(table, root)
      invariant forall root | root in trees ::
          Distinct(trees[root]) && forall pid :: pid in trees[root] <==> Reachable(table, root, pid)
    {
      assert roots[..i + 1] == roots[..i] + [roots[i]];
      if roots[i] in alive {
        var pids := CollectTree(roots[i], children, table);
        trees := trees[roots[i] := pids];
      }
    }
    assert roots[..|roots|] == roots;
  }
}
