/** Whole runs of the port manager: any operations in any order, at any suspension point. */
module PortRuns {
  import opened Wrappers
  import opened PortOrder
  import opened Text
  import opened PortIndex
  import opened PortManager

  datatype Operation =
    | Upsert(terminalId: string, workspaceId: string, pid: Option<nat>)
    | Unregister(terminalId: string)
    | Output(terminalId: string, isHint: bool)
    | TimerTick
    | HintFires
    | Force
    | TreesArrive(trees: Option<map<nat, seq<nat>>>)
    | PortsArrive(result: ScanResult)
    | Stop

  /** What the scheduling of scans depends on. */
  datatype Snapshot = Snapshot(sessions: map<string, Session>, suspended: seq<Scan>, scanRequested: bool, forceRequested: bool)

  function SnapshotOf(pm: PortManager): Snapshot
    reads pm
  {
    Snapshot(pm.sessions, pm.suspended, pm.scanRequested, pm.forceRequested)
  }

  predicate Orderly(s: Snapshot) {
    |s.suspended| <= 1 && (s.forceRequested ==> s.scanRequested)
  }

  /** Whether the operation ends in a call of `stopPeriodicScan`. */
  predicate Stops(op: Operation, sessions: map<string, Session>) {
    op.Stop? || (op.Unregister? && sessions - {op.terminalId} == map[])
  }

  predicate AtTrees(s: Snapshot) {
    s.suspended != [] && s.suspended[0].AwaitingTrees?
  }

  predicate AtPorts(s: Snapshot) {
    s.suspended != [] && s.suspended[0].AwaitingPorts?
  }

  predicate StartsAt(force: bool, sessions: map<string, Session>, now: int, s': Snapshot) {
    && s'.suspended == [AwaitingTrees(force, now, Due(sessions, force, now))]
    && s'.sessions == sessions
  }

  /** A scan begins if none runs and there is a session; while one runs, the request is noted. */
  predicate Requests(s: Snapshot, force: bool, now: int, s': Snapshot) {
    if s.suspended != [] then
      s' == s.(scanRequested := true, forceRequested := s.forceRequested || force)
    else if s.sessions == map[] then s' == s
    else
      StartsAt(force, s.sessions, now, s') && s'.scanRequested == s.scanRequested && s'.forceRequested == s.forceRequested
  }

  /** The scan's last block: the requests noted meanwhile become one follow-up, if there is a session left. */
  predicate Completes(s: Snapshot, now: int, s': Snapshot) {
    if s.scanRequested && s.sessions != map[] then
      StartsAt(s.forceRequested, s.sessions, now, s') && !s'.scanRequested && !s'.forceRequested
    else s' == s.(suspended := [])
  }

  /** What one operation at `now` does to the sessions, the scan and the requests. */
  predicate StepOf(s: Snapshot, op: Operation, now: int, s': Snapshot) {
    match op
    case Upsert(t, w, pid) =>
      s' == s.(sessions := s.sessions[t := if t in s.sessions && s.sessions[t].pid == pid
                                           then s.sessions[t].(workspaceId := w) else Session(w, pid, now, 0)])
    case Unregister(t) =>
      var kept := s.(sessions := s.sessions - {t});
      s' == if kept.sessions == map[] then kept.(scanRequested := false, forceRequested := false) else kept
    case Output(t, _) =>
      s' == if t in s.sessions then s.(sessions := s.sessions[t := s.sessions[t].(lastActivityAt := now)]) else s
    case TimerTick => Requests(s, false, now, s')
    case HintFires => s' == s || Requests(s, false, now, s')
    case Force => Requests(s, true, now, s')
    case TreesArrive(trees) =>
      if !AtTrees(s) then s' == s
      else
        var scan := s.suspended[0];
        if trees.None? && scan.due != map[] then s' == s.(suspended := [])
        else
          && s' == s.(sessions := Stamped(s.sessions, scan.due, scan.now), suspended := s'.suspended)
          && |s'.suspended| == 1 && s'.suspended[0].AwaitingPorts? && s'.suspended[0].force == scan.force
    case PortsArrive(result) =>
      if !AtPorts(s) then s' == s
      else if result.Listening? then Completes(s, now, s')
      else s' == s.(suspended := [])
    case Stop => s' == s.(scanRequested := false, forceRequested := false)
  }

  method Perform(pm: PortManager, op: Operation, now: int)
    requires pm.Valid()
    modifies pm
    ensures pm.Valid() && old(pm.events) <= pm.events
    ensures Orderly(old(SnapshotOf(pm))) && Orderly(SnapshotOf(pm))
    ensures StepOf(old(SnapshotOf(pm)), op, now, SnapshotOf(pm))
  {
    hide Faithful; hide Total; hide Due; hide Reads; hide Shows; hide SamePorts; hide Stamped;
    match op
    case Upsert(t, w, pid) => pm.UpsertSession(t, w, pid, now);
    case Unregister(t) => pm.UnregisterSession(t);
    case Output(t, isHint) => pm.CheckOutputForHint(t, isHint, now);
    case TimerTick => pm.Tick(now);
    case HintFires => pm.FireHint(now);
    case Force => pm.ForceScan(now);
    case TreesArrive(trees) =>
      if pm.suspended != [] && pm.suspended[0].AwaitingTrees? {
        pm.ResumeTrees(trees);
      }
    case PortsArrive(result) =>
      if pm.suspended != [] && pm.suspended[0].AwaitingPorts? {
        pm.ResumePorts(result, now);
      }
    case Stop => pm.StopPeriodicScan();
  }

  /** A run: `states[i + 1]` is left by `ops[i]`, performed at `times[i]`. */
  datatype Trace = Trace(states: seq<Snapshot>, ops: seq<Operation>, times: seq<int>)

  predicate IsTrace(tr: Trace) {
    && |tr.times| == |tr.ops| && |tr.states| == |tr.ops| + 1
    && (forall i | 0 <= i < |tr.states| :: Orderly(tr.states[i]))
    && (forall i | 0 <= i < |tr.ops| :: StepOf(tr.states[i], tr.ops[i], tr.times[i], tr.states[i + 1]))
  }

  /** Any run, at any suspension point, keeps the events and the index in step and passes through a trace. */
  method PerformAll(pm: PortManager, ops: seq<Operation>, times: seq<int>) returns (ghost states: seq<Snapshot>)
    requires pm.Valid() && |times| == |ops|
    modifies pm
    ensures pm.Valid() && old(pm.events) <= pm.events
    ensures IsTrace(Trace(states, ops, times))
    ensures states[0] == old(SnapshotOf(pm)) && states[|ops|] == SnapshotOf(pm)
  {
    hide Faithful; hide Total; hide StepOf; hide Stops;
    states := [SnapshotOf(pm)];
    for i := 0 to |ops|
      invariant pm.Valid() && old(pm.events) <= pm.events
      invariant |states| == i + 1 && states[0] == old(SnapshotOf(pm)) && states[i] == SnapshotOf(pm)
      invariant forall j | 0 <= j <= i :: Orderly(states[j])
      invariant forall j | 0 <= j < i :: StepOf(states[j], ops[j], times[j], states[j + 1])
    {
      Perform(pm, ops[i], times[i]);
      states := states + [SnapshotOf(pm)];
    }
  }

  // ---------- forced requests ----------

  /** Operation `i` of the run begins a forced scan, at which every spawned session is due. */
  predicate ForcedAt(tr: Trace, i: nat)
    requires IsTrace(tr) && i < |tr.ops|
  {
    && (tr.states[i].suspended == [] || AtPorts(tr.states[i]))
    && StartsAt(true, tr.states[i].sessions, tr.times[i], tr.states[i + 1])
  }

  predicate StopsAt(tr: Trace, i: nat)
    requires IsTrace(tr) && i < |tr.ops|
  {
    Stops(tr.ops[i], tr.states[i].sessions)
  }

  /** A forced request is lost by nothing but a stop: not by an abort, an error or any other operation. */
  lemma {:induction false} ForcedUntilStarted(tr: Trace, i: nat, j: nat)
    requires IsTrace(tr) && i <= j <= |tr.ops| && tr.states[i].forceRequested
    requires forall k | i <= k < j :: !StopsAt(tr, k)
    ensures tr.states[j].forceRequested || exists k | i <= k < j :: ForcedAt(tr, k)
    decreases j
  {
    hide Due; hide Stamped;
    if i < j {
      var k := j - 1;
      ForcedUntilStarted(tr, i, k);
      assert !StopsAt(tr, k) && StepOf(tr.states[k], tr.ops[k], tr.times[k], tr.states[k + 1]);
      assert tr.states[k].forceRequested && !tr.states[k + 1].forceRequested ==> ForcedAt(tr, k);
    }
  }

  /**
   * Whoever asks for a forced scan while there is a session gets one, at the latest when a scan's two
   * reads next succeed with a session left, however many scans were aborted or failed before.
   */
  lemma ForceHonoured(tr: Trace, i: nat, j: nat)
    requires IsTrace(tr) && i < j < |tr.ops| && tr.ops[i].Force? && tr.states[i].sessions != map[]
    requires forall k | i < k < j :: !StopsAt(tr, k)
    requires AtPorts(tr.states[j]) && tr.ops[j].PortsArrive? && tr.ops[j].result.Listening? && tr.states[j].sessions != map[]
    ensures exists k | i <= k <= j :: ForcedAt(tr, k)
  {
    hide Due; hide Stamped;
    if tr.states[i].suspended == [] {
      assert ForcedAt(tr, i);
    } else {
      ForcedUntilStarted(tr, i + 1, j);
      assert tr.states[j].forceRequested ==> ForcedAt(tr, j);
    }
  }

  /** What a listener has been told is the index, and for each terminal and port the events alternate. */
  lemma ListenersKnowTheIndex(pm: PortManager, terminalId: string, port: nat)
    requires pm.Valid()
    ensures var slot, key := (terminalId, port), MakeKey(terminalId, port);
            && (slot in Replay(pm.events) <==> key in pm.ports)
            && (key in pm.ports ==> Replay(pm.events)[slot] == pm.ports[key])
    ensures var kinds := Kinds(pm.events, (terminalId, port));
            && (forall i | 0 <= i < |kinds| :: kinds[i] == (i % 2 == 0))
            && (|kinds| % 2 == 1 <==> MakeKey(terminalId, port) in pm.ports)
  {
    hide MakeKey;
    var slot, key := (terminalId, port), MakeKey(terminalId, port);
    if key in pm.ports {
      KeySlot(pm.events, pm.ports, terminalId, port);
    }
    if slot in Replay(pm.events) {
      assert MakeKey(slot.0, slot.1) in pm.ports;
    }
    CoherentAlternates(pm.events, slot);
  }

  // ---------- how old a scan can be ----------

  /** The step begins a scan. */
  predicate Begins(s: Snapshot, s': Snapshot) {
    (s.suspended == [] || AtPorts(s)) && AtTrees(s')
  }

  /** When the scan that runs before operation `i`, or else the last one, began; the run starts with one. */
  function LastStart(tr: Trace, i: nat): int
    requires IsTrace(tr) && 0 < i <= |tr.ops|
  {
    if i == 1 || Begins(tr.states[i - 1], tr.states[i]) then tr.times[i - 1] else LastStart(tr, i - 1)
  }

  /** When the interval timer last fired before operation `i`, or else the run's start. */
  function LastTick(tr: Trace, i: nat): int
    requires IsTrace(tr) && 0 < i <= |tr.ops|
  {
    if i == 1 || tr.ops[i - 1].TimerTick? then tr.times[i - 1] else LastTick(tr, i - 1)
  }

  predicate ReadSucceeds(op: Operation) {
    (op.TreesArrive? ==> op.trees.Some?) && (op.PortsArrive? ==> op.result.Listening?)
  }

  /**
   * The clock never goes back, every read succeeds, and at each operation the interval timer has fired in the last `period` ms,
   * a process table is awaited for `table` ms at most and a scan has run for `scan` ms at most.
   */
  predicate Prompt(tr: Trace, period: nat, table: nat, scan: nat)
    requires IsTrace(tr)
  {
    && (forall i | 0 <= i < |tr.ops| :: ReadSucceeds(tr.ops[i]))
    && (forall i | 0 < i < |tr.ops| ::
          && tr.times[i - 1] <= tr.times[i] <= LastTick(tr, i) + period
          && (AtTrees(tr.states[i]) ==> tr.times[i] - LastStart(tr, i) <= table)
          && (AtPorts(tr.states[i]) ==> tr.times[i] - LastStart(tr, i) <= scan))
  }

  /** The terminal has a session, with this process. */
  predicate Has(s: Snapshot, t: string, pid: nat) {
    t in s.sessions && s.sessions[t].pid == Some(pid)
  }

  /** The terminal keeps its session and its process, and nobody stops the scanner. */
  predicate Stays(tr: Trace, t: string, pid: nat)
    requires IsTrace(tr)
  {
    && (forall i | 0 <= i < |tr.states| :: Has(tr.states[i], t, pid))
    && (forall i | 0 <= i < |tr.ops| :: !StopsAt(tr, i))
  }

  /** The run starts with a scan at which the terminal is due. */
  predicate StartsWith(tr: Trace, t: string)
    requires IsTrace(tr)
  {
    |tr.ops| > 0 && Begins(tr.states[0], tr.states[1]) && t in tr.states[1].suspended[0].due
  }

  function Max(a: int, b: int): int {
    if a < b then b else a
  }

  /**
   * How old the stamp of `t` was when the last scan began at `began`: within the idle interval once that scan
   * has stamped, within `slack` of it before. `first` is when the first scan began. No tick after `began` is forgotten.
   */
  predicate Fresh(s: Snapshot, t: string, pid: nat, began: int, tick: int, first: int, slack: int)
    requires Has(s, t, pid)
  {
    var age := began - s.sessions[t].lastScannedAt;
    && (tick > began ==> s.suspended != [] && s.scanRequested)
    && (!AtTrees(s) ==> age < IDLE_SCAN_INTERVAL_MS)
    && (AtTrees(s) ==>
          var scan := s.suspended[0];
          && scan.now == began
          && (t in scan.due ==> scan.due[t] == pid)
          && (t in scan.due || age < IDLE_SCAN_INTERVAL_MS)
          && (age < IDLE_SCAN_INTERVAL_MS + slack || (began == first && t in scan.due)))
  }

  lemma BeginsDue(s: Snapshot, op: Operation, now: int, s': Snapshot, t: string, pid: nat)
    requires Orderly(s) && StepOf(s, op, now, s') && Begins(s, s') && Has(s, t, pid) && Has(s', t, pid)
    ensures s'.suspended[0].now == now && s'.sessions == s.sessions
    ensures var due := s'.suspended[0].due;
            && (t in due ==> due[t] == pid)
            && (t in due || now - s'.sessions[t].lastScannedAt < IDLE_SCAN_INTERVAL_MS)
  {
  }

  lemma FreshStep(s: Snapshot, op: Operation, now: int, s': Snapshot, t: string, pid: nat,
                  began: int, tick: int, first: int, slack: int)
    requires Orderly(s) && StepOf(s, op, now, s') && Has(s, t, pid) && Has(s', t, pid)
    requires !Stops(op, s.sessions) && ReadSucceeds(op)
    requires Fresh(s, t, pid, began, tick, first, slack)
    requires tick <= now <= tick + slack && (AtPorts(s) ==> now - began <= slack)
    ensures Fresh(s', t, pid, if Begins(s, s') then now else began, if op.TimerTick? then now else tick, first, slack)
  {
    if Begins(s, s') {
      BeginsDue(s, op, now, s', t, pid);
    }
  }

  lemma {:induction false} FreshAlways(tr: Trace, t: string, pid: nat, period: nat, table: nat, scan: nat, i: nat)
    requires IsTrace(tr) && Stays(tr, t, pid) && StartsWith(tr, t) && Prompt(tr, period, table, scan) && 0 < i <= |tr.ops|
    ensures Fresh(tr.states[i], t, pid, LastStart(tr, i), LastTick(tr, i), tr.times[0], Max(period, scan))
    ensures LastTick(tr, i) <= tr.times[i - 1]
    decreases i
  {
    hide StepOf; hide Stops; hide Fresh; hide Begins;
    var k := i - 1;
    assert Has(tr.states[k], t, pid) && Has(tr.states[i], t, pid) && StepOf(tr.states[k], tr.ops[k], tr.times[k], tr.states[k + 1]);
    if k == 0 {
      FirstFresh(tr, t, pid, Max(period, scan));
    } else {
      FreshAlways(tr, t, pid, period, table, scan, k);
      assert !StopsAt(tr, k) && ReadSucceeds(tr.ops[k]);
      FreshStep(tr.states[k], tr.ops[k], tr.times[k], tr.states[i], t, pid,
                LastStart(tr, k), LastTick(tr, k), tr.times[0], Max(period, scan));
    }
  }

  lemma FirstFresh(tr: Trace, t: string, pid: nat, slack: int)
    requires IsTrace(tr) && Stays(tr, t, pid) && StartsWith(tr, t)
    ensures Fresh(tr.states[1], t, pid, tr.times[0], tr.times[0], tr.times[0], slack)
  {
    hide StepOf;
    assert Has(tr.states[0], t, pid) && StepOf(tr.states[0], tr.ops[0], tr.times[0], tr.states[0 + 1]);
    BeginsDue(tr.states[0], tr.ops[0], tr.times[0], tr.states[1], t, pid);
  }

  /**
   * Once the first scan has had time for its table read, no moment of the run finds the terminal's last scan
   * older than the idle interval, plus a timer period or a whole scan, plus a table read.
   */
  lemma NeverStale(tr: Trace, t: string, pid: nat, period: nat, table: nat, scan: nat, i: nat)
    requires IsTrace(tr) && Stays(tr, t, pid) && StartsWith(tr, t) && Prompt(tr, period, table, scan) && 0 < i < |tr.ops|
    requires tr.times[i] - tr.times[0] > table
    ensures t in tr.states[i].sessions
    ensures tr.times[i] - tr.states[i].sessions[t].lastScannedAt < IDLE_SCAN_INTERVAL_MS + Max(period, scan) + table
  {
    assert Has(tr.states[i], t, pid);
    FreshAlways(tr, t, pid, period, table, scan, i);
  }

  // ---------- who is due ----------

  lemma {:induction false} ActivityKept(tr: Trace, t: string, pid: nat, j: nat, i: nat)
    requires IsTrace(tr) && j < i <= |tr.ops| && tr.ops[j].Output? && tr.ops[j].terminalId == t
    requires forall k | j <= k <= i :: Has(tr.states[k], t, pid)
    requires forall k | j <= k < i :: tr.times[j] <= tr.times[k]
    ensures t in tr.states[i].sessions && tr.states[i].sessions[t].lastActivityAt >= tr.times[j]
    decreases i
  {
    hide Due;
    var k := i - 1;
    assert Has(tr.states[i], t, pid);
    assert StepOf(tr.states[k], tr.ops[k], tr.times[k], tr.states[k + 1]) && Has(tr.states[k], t, pid) && Has(tr.states[i], t, pid);
    if k > j {
      ActivityKept(tr, t, pid, j, k);
    }
  }

  /** A scan that begins within a minute of a terminal's output looks at the terminal, whatever happened in between. */
  lemma OutputIsScanned(tr: Trace, t: string, pid: nat, j: nat, i: nat)
    requires IsTrace(tr) && j < i < |tr.ops| && tr.ops[j].Output? && tr.ops[j].terminalId == t
    requires forall k | j <= k <= i + 1 :: Has(tr.states[k], t, pid)
    requires forall k | j <= k <= i :: tr.times[j] <= tr.times[k]
    requires Begins(tr.states[i], tr.states[i + 1]) && tr.times[i] < tr.times[j] + 60_000
    ensures t in tr.states[i + 1].suspended[0].due && tr.states[i + 1].suspended[0].due[t] == pid
  {
    ActivityKept(tr, t, pid, j, i);
    assert StepOf(tr.states[i], tr.ops[i], tr.times[i], tr.states[i + 1]) && Has(tr.states[i], t, pid) && Has(tr.states[i + 1], t, pid);
  }

  /** A quiet terminal scanned less than half a minute ago is left alone, unless the scan is forced. */
  lemma QuietIsSkipped(tr: Trace, t: string, i: nat)
    requires IsTrace(tr) && i < |tr.ops| && Begins(tr.states[i], tr.states[i + 1]) && !ForcedAt(tr, i) && t in tr.states[i].sessions
    requires tr.states[i].sessions[t].lastActivityAt + 60_000 <= tr.times[i] < tr.states[i].sessions[t].lastScannedAt + 30_000
    ensures t !in tr.states[i + 1].suspended[0].due
  {
    assert StepOf(tr.states[i], tr.ops[i], tr.times[i], tr.states[i + 1]);
  }
}
