/**
 * Scanning terminals for listening ports.
 *
 * A scan is cut into the synchronous blocks between its two awaits; anything else may run where it
 * is suspended. Maps are walked in an arbitrary order, of which insertion order is one.
 */
module PortManager {
  import opened Wrappers
  import opened PortOrder
  import opened Text
  import opened PortIndex

  const IDLE_AFTER_MS := 60_000
  const IDLE_SCAN_INTERVAL_MS := 30_000
  const IGNORED_PORTS: set<nat> := {22, 80, 443}

  datatype Session = Session(workspaceId: string, pid: Option<nat>, lastActivityAt: int, lastScannedAt: int)

  predicate IsSessionDue(entry: Session, now: int) {
    now - entry.lastActivityAt < IDLE_AFTER_MS || now - entry.lastScannedAt >= IDLE_SCAN_INTERVAL_MS
  }

  /** The processes a scan looks at: which terminal owns each, and which terminals have exited. */
  datatype ScanState = ScanState(terminals: map<string, string>, owners: map<nat, string>, emptyTrees: set<string>)

  datatype Scan =
    | AwaitingTrees(force: bool, now: int, due: map<string, nat>)
    | AwaitingPorts(force: bool, state: ScanState)

  datatype ScanResult = Listening(infos: seq<PortInfo>) | Aborted | Failed

  // ---------- what a scan is to show ----------

  function DropIgnored(infos: seq<PortInfo>): (kept: seq<PortInfo>)
    ensures forall x :: x in kept <==> x in infos && x.port !in IGNORED_PORTS
  {
    if infos == [] then []
    else
      var rest := DropIgnored(infos[1..]);
      assert forall x :: x in infos <==> x == infos[0] || x in infos[1..];
      if infos[0].port in IGNORED_PORTS then rest else [infos[0]] + rest
  }

  /** The listener shown for its port: the preferred one, unless the port is ignored. */
  ghost predicate Chosen(collate: Collation, infos: seq<PortInfo>, info: PortInfo) {
    info.port !in IGNORED_PORTS && Preferred(collate, infos, info)
  }

  /** A port already shown keeps its workspace and detection time; only a changed listener is rewritten. */
  function Entry(was: map<string, DetectedPort>, terminalId: string, workspaceId: string, info: PortInfo, now: int): DetectedPort {
    var key := MakeKey(terminalId, info.port);
    if key !in was then
      DetectedPort(info.port, info.pid, info.processName, terminalId, workspaceId, now, info.address)
    else was[key].(pid := info.pid, processName := info.processName, address := info.address)
  }

  /** Of `terminalId`, exactly the chosen listeners are shown. */
  ghost predicate Shows(collate: Collation, ports: map<string, DetectedPort>, terminalId: string, infos: seq<PortInfo>) {
    && (forall info | Chosen(collate, infos, info) ::
          var key := MakeKey(terminalId, info.port);
          && key in ports && SlotOf(ports[key]) == (terminalId, info.port)
          && ports[key].pid == info.pid && ports[key].processName == info.processName && ports[key].address == info.address)
    && (forall k | k in ports && ports[k].terminalId == terminalId ::
          exists info :: Chosen(collate, infos, info) && k == MakeKey(terminalId, info.port))
  }

  /** The ports of `terminalId` are the same in both. */
  predicate SamePorts(was: map<string, DetectedPort>, now: map<string, DetectedPort>, terminalId: string) {
    && (forall k | k in was && was[k].terminalId == terminalId :: k in now && now[k] == was[k])
    && (forall k | k in now && now[k].terminalId == terminalId :: k in was && was[k] == now[k])
  }

  predicate OthersSame(was: map<string, DetectedPort>, now: map<string, DetectedPort>, terminalId: string) {
    && (forall k | k in was && was[k].terminalId != terminalId :: k in now && now[k] == was[k])
    && (forall k | k in now && now[k].terminalId != terminalId :: k in was && was[k] == now[k])
  }

  predicate NoOrphans(ports: map<string, DetectedPort>, terminals: set<string>) {
    forall k | k in ports :: ports[k].terminalId in terminals
  }

  /** The listeners whose process belongs to `terminalId`. */
  function Owned(infos: seq<PortInfo>, owners: map<nat, string>, terminalId: string): seq<PortInfo> {
    if infos == [] then []
    else
      var before := Owned(infos[..|infos| - 1], owners, terminalId);
      var last := infos[|infos| - 1];
      if last.pid in owners && owners[last.pid] == terminalId then before + [last] else before
  }

  lemma {:induction false} OwnedHas(infos: seq<PortInfo>, owners: map<nat, string>, terminalId: string)
    ensures forall info :: info in Owned(infos, owners, terminalId) <==>
              info in infos && info.pid in owners && owners[info.pid] == terminalId
  {
    if infos != [] {
      var n := |infos| - 1;
      OwnedHas(infos[..n], owners, terminalId);
      assert forall info :: info in infos <==> info in infos[..n] || info == infos[n];
    }
  }

  /** A listener the scan saw whose process it found under `terminalId`. */
  ghost predicate Listens(infos: seq<PortInfo>, owners: map<nat, string>, terminalId: string, info: PortInfo) {
    info in infos && info.pid in owners && owners[info.pid] == terminalId
  }

  /** A port is shown under the terminal exactly if it is not ignored and a process of the terminal listens on it. */
  ghost predicate ShownPorts(ports: map<string, DetectedPort>, terminalId: string, infos: seq<PortInfo>, owners: map<nat, string>) {
    forall port: nat ::
      (MakeKey(terminalId, port) in ports && SlotOf(ports[MakeKey(terminalId, port)]) == (terminalId, port)) <==>
      port !in {22, 80, 443} && exists info :: Listens(infos, owners, terminalId, info) && info.port == port
  }

  /** What is shown of a port is the process, its name and the address of the least listener on it. */
  ghost predicate ShownEntries(collate: Collation, ports: map<string, DetectedPort>, terminalId: string, infos: seq<PortInfo>, owners: map<nat, string>) {
    forall k | k in ports && ports[k].terminalId == terminalId ::
      exists info ::
        && Listens(infos, owners, terminalId, info) && ports[k].port == info.port
        && (forall other | Listens(infos, owners, terminalId, other) && other.port == info.port :: Compare(collate, info, other) <= 0.0)
        && ports[k].pid == info.pid && ports[k].processName == info.processName && ports[k].address == info.address
  }

  /** An entry keeps its workspace and the time it was first seen at. */
  predicate Dated(was: map<string, DetectedPort>, now: map<string, DetectedPort>, terminalId: string, workspaceId: string, at: int) {
    forall k | k in now && now[k].terminalId == terminalId ::
      if k in was && was[k].terminalId == terminalId
      then now[k].workspaceId == was[k].workspaceId && now[k].detectedAt == was[k].detectedAt
      else now[k].workspaceId == workspaceId && now[k].detectedAt == at
  }

  lemma {:induction false} LeastListener(collate: Collation, infos: seq<PortInfo>, seen: PortInfo) returns (least: PortInfo)
    requires seen in infos
    ensures Preferred(collate, infos, least) && least.port == seen.port
  {
    hide Compare;
    var last := infos[|infos| - 1];
    var rest := infos[..|infos| - 1];
    assert forall x :: x in infos <==> x in rest || x == last;
    if exists x :: x in rest && x.port == seen.port {
      var x :| x in rest && x.port == seen.port;
      least := LeastListener(collate, rest, x);
      CompareTotal(collate, last, least, last);
      CompareTotal(collate, least, last, last);
      if last.port == seen.port && Compare(collate, last, least) < 0.0 {
        forall other | other in infos && other.port == seen.port ensures Compare(collate, last, other) <= 0.0 {
          CompareTotal(collate, last, least, other);
          CompareTotal(collate, last, last, last);
        }
        least := last;
      }
    } else {
      least := last;
      CompareTotal(collate, last, last, last);
    }
  }

  lemma ShowsEntries(collate: Collation, events: seq<PortEvent>, ports: map<string, DetectedPort>, terminalId: string,
                     infos: seq<PortInfo>, owners: map<nat, string>)
    requires Faithful(events, ports) && Shows(collate, ports, terminalId, Owned(infos, owners, terminalId))
    ensures ShownPorts(ports, terminalId, infos, owners) && ShownEntries(collate, ports, terminalId, infos, owners)
  {
    hide Compare; hide MakeKey; hide Faithful;
    var owned := Owned(infos, owners, terminalId);
    OwnedHas(infos, owners, terminalId);
    forall port: nat
      ensures (MakeKey(terminalId, port) in ports && SlotOf(ports[MakeKey(terminalId, port)]) == (terminalId, port)) <==>
                port !in {22, 80, 443} && exists info :: Listens(infos, owners, terminalId, info) && info.port == port
    {
      if port !in IGNORED_PORTS && exists info :: Listens(infos, owners, terminalId, info) && info.port == port {
        var info :| Listens(infos, owners, terminalId, info) && info.port == port;
        var least := LeastListener(collate, owned, info);
        assert Chosen(collate, owned, least);
      }
      if MakeKey(terminalId, port) in ports && SlotOf(ports[MakeKey(terminalId, port)]) == (terminalId, port) {
        var info :| Chosen(collate, owned, info) && MakeKey(terminalId, port) == MakeKey(terminalId, info.port);
        assert Listens(infos, owners, terminalId, info);
      }
    }
    forall k | k in ports && ports[k].terminalId == terminalId
      ensures exists info :: Chosen(collate, owned, info) && k == MakeKey(terminalId, info.port)
    {
    }
  }

  class PortManager {
    const collate: Collation
    var ports: map<string, DetectedPort>
    var sessions: map<string, Session>
    var events: seq<PortEvent>
    var intervalRunning: bool
    var hintPending: bool
    var isScanning: bool
    var scanRequested: bool
    var forceRequested: bool
    /** The scans suspended at an await. */
    var suspended: seq<Scan>

    /** What holds wherever other code can run. */
    ghost predicate Valid()
      reads this
    {
      && Total(collate)
      && Faithful(events, ports)
      && NoOrphans(ports, sessions.Keys)
      && Scheduled()
    }

    /** At most one scan runs, and a forced request is always also a request. */
    predicate Scheduled()
      reads this
    {
      && |suspended| == (if isScanning then 1 else 0)
      && (forceRequested ==> scanRequested)
      && (forall i | 0 <= i < |suspended| && suspended[i].AwaitingPorts? ::
            suspended[i].state.terminals.Keys !! suspended[i].state.emptyTrees)
    }

    constructor (collate: Collation)
      requires Total(collate)
      ensures Valid() && this.collate == collate
      ensures ports == map[] && sessions == map[] && events == [] && !isScanning && !scanRequested
    {
      this.collate := collate;
      ports, sessions, events, suspended := map[], map[], [], [];
      intervalRunning, hintPending, isScanning, scanRequested, forceRequested := false, false, false, false, false;
    }

    // ---------- the index ----------

    method Track(p: DetectedPort)
      requires Faithful(events, ports) && MakeKey(p.terminalId, p.port) !in ports
      modifies this`ports, this`events
      ensures Faithful(events, ports)
      ensures ports == old(ports)[MakeKey(p.terminalId, p.port) := p] && events == old(events) + [Add(p)]
    {
      AddKeepsFaithful(events, ports, p);
      ports := ports[MakeKey(p.terminalId, p.port) := p];
      events := events + [Add(p)];
    }

    method Untrack(key: string)
      requires Faithful(events, ports) && key in ports
      modifies this`ports, this`events
      ensures Faithful(events, ports)
      ensures ports == old(ports) - {key} && events == old(events) + [Remove(old(ports)[key])]
    {
      RemoveKeepsFaithful(events, ports, key);
      events := events + [Remove(ports[key])];
      ports := ports - {key};
    }

    method UntrackAll(keys: set<string>)
      requires Faithful(events, ports) && keys <= ports.Keys
      modifies this`ports, this`events
      ensures Faithful(events, ports) && ports == old(ports) - keys && old(events) <= events
    {
      var left := keys;
      while left != {}
        invariant left <= keys && Faithful(events, ports) && old(events) <= events
        invariant ports == old(ports) - (keys - left)
        decreases left
      {
        var key :| key in left;
        assert old(ports) - (keys - left) - {key} == old(ports) - (keys - (left - {key}));
        Untrack(key);
        left := left - {key};
      }
    }

    method RemovePortsForTerminal(terminalId: string)
      requires Faithful(events, ports)
      modifies this`ports, this`events
      ensures Faithful(events, ports) && old(events) <= events
      ensures ports == map k | k in old(ports) && old(ports)[k].terminalId != terminalId :: old(ports)[k]
    {
      UntrackAll(set k | k in ports && ports[k].terminalId == terminalId);
    }

    method CleanupUnregisteredPorts()
      requires Faithful(events, ports)
      modifies this`ports, this`events
      ensures Faithful(events, ports) && old(events) <= events && NoOrphans(ports, sessions.Keys)
      ensures ports == map k | k in old(ports) && old(ports)[k].terminalId in sessions :: old(ports)[k]
    {
      UntrackAll(set k | k in ports && ports[k].terminalId !in sessions);
    }

    /** Shows one chosen listener, announcing it only if something changed. */
    method Show(terminalId: string, workspaceId: string, info: PortInfo, now: int)
      requires Faithful(events, ports)
      modifies this`ports, this`events
      ensures Faithful(events, ports) && old(events) <= events
      ensures ports == old(ports)[MakeKey(terminalId, info.port) := Entry(old(ports), terminalId, workspaceId, info, now)]
      ensures var key := MakeKey(terminalId, info.port);
              events == old(events) +
                (if key !in old(ports) then [Add(ports[key])]
                 else if old(ports)[key] == ports[key] then []
                 else [Remove(old(ports)[key]), Add(ports[key])])
    {
      hide Faithful; hide MakeKey;
      var key := MakeKey(terminalId, info.port);
      if key !in ports {
        Track(DetectedPort(info.port, info.pid, info.processName, terminalId, workspaceId, now, info.address));
      } else {
        var existing := ports[key];
        KeyOf(events, ports, key);
        if existing.pid != info.pid || existing.processName != info.processName || existing.address != info.address {
          Untrack(key);
          Track(existing.(pid := info.pid, processName := info.processName, address := info.address));
        }
      }
    }

    /** Brings the ports of one scanned terminal in line with its listeners. */
    method UpdatePortsForTerminal(terminalId: string, workspaceId: string, infos: seq<PortInfo>, now: int)
      requires Total(collate) && Faithful(events, ports)
      modifies this`ports, this`events
      ensures Faithful(events, ports) && old(events) <= events
      ensures OthersSame(old(ports), ports, terminalId)
      ensures Shows(collate, ports, terminalId, infos)
      ensures Dated(old(ports), ports, terminalId, workspaceId, now)
    {
      hide Faithful; hide MakeKey; hide Compare; hide Shows; hide OthersSame; hide Dated; hide Chosen; hide Preferred; hide Entry; hide Total;
      var deduped := DedupePortInfosByPort(collate, DropIgnored(infos));
      var seenKeys: set<string> := {};
      for i := 0 to |deduped|
        invariant Faithful(events, ports) && old(events) <= events
        invariant seenKeys == KeysOf(terminalId, deduped[..i])
        invariant ports == Overlay(old(ports), terminalId, workspaceId, deduped[..i], now)
      {
        assert deduped[..i + 1] == deduped[..i] + [deduped[i]];
        assert deduped[..i + 1][..i] == deduped[..i];
        OverlayElsewhere(old(ports), terminalId, workspaceId, deduped, i, now);
        Show(terminalId, workspaceId, deduped[i], now);
        seenKeys := seenKeys + {MakeKey(terminalId, deduped[i].port)};
      }
      assert deduped[..|deduped|] == deduped;
      UntrackAll(set k | k in ports && ports[k].terminalId == terminalId && k !in seenKeys);
      ChosenAreDeduped(collate, infos, deduped);
      UpdateDone(old(events), old(ports), ports, terminalId, workspaceId, deduped, now);
      ShowsDeduped(collate, old(ports), ports, terminalId, workspaceId, infos, deduped, now);
    }

    // ---------- scanning ----------

    method BuildPortsByTerminal(infos: seq<PortInfo>, owners: map<nat, string>) returns (portsByTerminal: map<string, seq<PortInfo>>)
      ensures forall t :: (if t in portsByTerminal then portsByTerminal[t] else []) == Owned(infos, owners, t)
    {
      portsByTerminal := map[];
      for i := 0 to |infos|
        invariant forall t :: (if t in portsByTerminal then portsByTerminal[t] else []) == Owned(infos[..i], owners, t)
      {
        var info := infos[i];
        assert infos[..i + 1][..i] == infos[..i];
        if info.pid in owners {
          var owner := owners[info.pid];
          var existing := if owner in portsByTerminal then portsByTerminal[owner] else [];
          portsByTerminal := portsByTerminal[owner := existing + [info]];
        }
      }
      assert infos[..|infos|] == infos;
    }

    method UpdatePortsFromScan(state: ScanState, infos: seq<PortInfo>, now: int)
      requires Total(collate) && Faithful(events, ports)
      modifies this`ports, this`events
      ensures Faithful(events, ports) && old(events) <= events
      ensures forall t | t in state.terminals :: Shows(collate, ports, t, Owned(infos, state.owners, t))
      ensures forall t | t !in state.terminals :: SamePorts(old(ports), ports, t)
      ensures forall t | t in state.terminals :: Dated(old(ports), ports, t, state.terminals[t], now)
    {
      hide Faithful; hide Total; hide MakeKey; hide Chosen; hide Entry; hide Owned; hide Shows; hide SamePorts; hide OthersSame; hide Dated;
      SelfSame(ports);
      var portsByTerminal := BuildPortsByTerminal(infos, state.owners);
      var left := state.terminals.Keys;
      while left != {}
        invariant left <= state.terminals.Keys && Faithful(events, ports) && old(events) <= events
        invariant forall t | t in state.terminals.Keys - left :: Shows(collate, ports, t, Owned(infos, state.owners, t))
        invariant forall t | t !in state.terminals.Keys - left :: SamePorts(old(ports), ports, t)
        invariant forall t | t in state.terminals.Keys - left :: Dated(old(ports), ports, t, state.terminals[t], now)
        decreases left
      {
        var t :| t in left;
        ghost var before := ports;
        UpdatePortsForTerminal(t, state.terminals[t], if t in portsByTerminal then portsByTerminal[t] else [], now);
        OthersStay(collate, old(ports), before, ports, t, state, left, infos);
        DatesStay(old(ports), before, ports, t, state, left, now);
        left := left - {t};
      }
    }

    method ClearEmptyTreeTerminals(terminals: set<string>)
      requires Faithful(events, ports)
      modifies this`ports, this`events
      ensures Faithful(events, ports) && old(events) <= events
      ensures ports == map k | k in old(ports) && old(ports)[k].terminalId !in terminals :: old(ports)[k]
    {
      hide Faithful;
      var left := terminals;
      while left != {}
        invariant left <= terminals && Faithful(events, ports) && old(events) <= events
        invariant ports == map k | k in old(ports) && old(ports)[k].terminalId !in terminals - left :: old(ports)[k]
        decreases left
      {
        var t :| t in left;
        RemovePortsForTerminal(t);
        left := left - {t};
      }
    }

    /** The last block of a scan: apply what was found, then forget terminals that went away meanwhile. */
    method ApplyScan(state: ScanState, infos: seq<PortInfo>, now: int)
      requires Total(collate) && Faithful(events, ports) && state.terminals.Keys !! state.emptyTrees
      modifies this`ports, this`events
      ensures Faithful(events, ports) && old(events) <= events && NoOrphans(ports, sessions.Keys)
      ensures forall t | t in state.terminals && t in sessions :: Shows(collate, ports, t, Owned(infos, state.owners, t))
      ensures forall k | k in ports :: ports[k].terminalId !in state.emptyTrees
      ensures forall t | t in sessions && t !in state.terminals && t !in state.emptyTrees :: SamePorts(old(ports), ports, t)
      ensures forall t | t in state.terminals && t in sessions :: Dated(old(ports), ports, t, state.terminals[t], now)
    {
      hide Faithful; hide Total; hide MakeKey; hide Chosen; hide Entry; hide Owned; hide Shows;
      UpdatePortsFromScan(state, infos, now);
      ghost var updated := ports;
      ClearEmptyTreeTerminals(state.emptyTrees);
      CleanupUnregisteredPorts();
      forall t | t in state.terminals && t in sessions ensures Shows(collate, ports, t, Owned(infos, state.owners, t)) {
        ShowsStays(collate, updated, ports, t, Owned(infos, state.owners, t));
      }
    }

    /** Starts a scan, or notes the request if one is running. */
    method ScanAllSessions(force: bool, now: int)
      requires Valid()
      modifies this`isScanning, this`scanRequested, this`forceRequested, this`suspended
      ensures Valid()
      ensures old(isScanning) ==>
                && isScanning && suspended == old(suspended) && scanRequested
                && forceRequested == (old(forceRequested) || force)
      ensures !old(isScanning) ==> scanRequested == old(scanRequested) && forceRequested == old(forceRequested)
      ensures !old(isScanning) && sessions == map[] ==> !isScanning && suspended == []
      ensures !old(isScanning) && sessions != map[] ==>
                isScanning && suspended == [AwaitingTrees(force, now, Due(sessions, force, now))]
    {
      if isScanning {
        scanRequested := true;
        if force {
          forceRequested := true;
        }
        return;
      }
      if sessions == map[] {
        return;
      }
      isScanning := true;
      suspended := suspended + [AwaitingTrees(force, now, Due(sessions, force, now))];
    }

    /** The process table arrived, or could not be read. */
    method ResumeTrees(trees: Option<map<nat, seq<nat>>>)
      requires Valid() && suspended != [] && suspended[0].AwaitingTrees?
      modifies this`sessions, this`isScanning, this`suspended
      ensures Valid() && ports == old(ports) && events == old(events)
      ensures var scan := old(suspended)[0];
              if trees.None? && scan.due != map[] then !isScanning && sessions == old(sessions)
              else
                && sessions == Stamped(old(sessions), scan.due, scan.now)
                && isScanning && |suspended| == 1 && suspended[0].AwaitingPorts? && suspended[0].force == scan.force
                && Reads(suspended[0].state, old(sessions), scan.due, trees.GetOr(map[]))
    {
      hide Faithful; hide Total; hide Reads; hide Noted; hide Stamped; hide Tree; hide Claim;
      var scan := suspended[0];
      if trees.None? && scan.due != map[] {
        isScanning, suspended := false, [];
        return;
      }
      var table := trees.GetOr(map[]);
      var state := ScanState(map[], map[], {});
      ReadsNone(sessions, table);
      var left := scan.due.Keys;
      ghost var done: map<string, nat> := map[];
      StampedNone(sessions, scan.now);
      while left != {}
        invariant left <= scan.due.Keys && isScanning
        invariant done.Keys == scan.due.Keys - left && forall t | t in done :: done[t] == scan.due[t]
        invariant sessions == Stamped(old(sessions), done, scan.now)
        invariant Reads(state, old(sessions), done, table)
        decreases left
      {
        var t :| t in left;
        StampedNext(old(sessions), done, scan.now, t, scan.due[t]);
        ReadsNext(state, old(sessions), done, table, t, scan.due[t]);
        if t in sessions && sessions[t].pid == Some(scan.due[t]) {
          state := Noted(state, sessions[t].workspaceId, Tree(table, scan.due[t]), t);
          sessions := sessions[t := sessions[t].(lastScannedAt := scan.now)];
        }
        done := done[t := scan.due[t]];
        left := left - {t};
      }
      assert done == scan.due;
      StampedKeys(old(sessions), scan.due, scan.now);
      ReadsDisjoint(state, old(sessions), scan.due, table);
      suspended := [AwaitingPorts(scan.force, state)];
    }

    /** The listeners arrived, or the read was aborted or failed. */
    method ResumePorts(result: ScanResult, now: int)
      requires Valid() && suspended != [] && suspended[0].AwaitingPorts?
      modifies this`ports, this`events, this`isScanning, this`scanRequested, this`forceRequested, this`suspended
      ensures Valid() && old(events) <= events
      ensures !result.Listening? ==>
                && ports == old(ports) && events == old(events) && !isScanning
                && scanRequested == old(scanRequested) && forceRequested == old(forceRequested)
      ensures result.Listening? ==>
                var state := old(suspended)[0].state;
                && (forall t | t in state.terminals && t in sessions ::
                      && ShownPorts(ports, t, result.infos, state.owners)
                      && ShownEntries(collate, ports, t, result.infos, state.owners)
                      && Dated(old(ports), ports, t, state.terminals[t], now))
                && (forall k | k in ports :: ports[k].terminalId !in state.emptyTrees)
                && (forall t | t in sessions && t !in state.terminals && t !in state.emptyTrees :: SamePorts(old(ports), ports, t))
      ensures result.Listening? && old(scanRequested) && sessions != map[] ==>
                && isScanning && !scanRequested && !forceRequested
                && suspended == [AwaitingTrees(old(forceRequested), now, Due(sessions, old(forceRequested), now))]
      ensures result.Listening? && !(old(scanRequested) && sessions != map[]) ==>
                !isScanning && scanRequested == old(scanRequested) && forceRequested == old(forceRequested)
    {
      hide Faithful; hide Total; hide Shows; hide SamePorts; hide Owned; hide ShownPorts; hide ShownEntries; hide Dated;
      if result.Listening? {
        var state := suspended[0].state;
        ApplyScan(state, result.infos, now);
        forall t | t in state.terminals && t in sessions
          ensures ShownPorts(ports, t, result.infos, state.owners) && ShownEntries(collate, ports, t, result.infos, state.owners)
        {
          ShowsEntries(collate, events, ports, t, result.infos, state.owners);
        }
      }
      isScanning, suspended := false, [];
      if result.Listening? && scanRequested && sessions != map[] {
        scanRequested := false;
        var followUpForce := forceRequested;
        forceRequested := false;
        ScanAllSessions(followUpForce, now);
      }
    }

    // ---------- sessions and timers ----------

    method UpsertSession(terminalId: string, workspaceId: string, pid: Option<nat>, now: int)
      requires Valid()
      modifies this`sessions, this`intervalRunning
      ensures Valid() && intervalRunning
      ensures terminalId in old(sessions) && old(sessions)[terminalId].pid == pid ==>
                sessions == old(sessions)[terminalId := old(sessions)[terminalId].(workspaceId := workspaceId)]
      ensures !(terminalId in old(sessions) && old(sessions)[terminalId].pid == pid) ==>
                sessions == old(sessions)[terminalId := Session(workspaceId, pid, now, 0)]
    {
      hide Faithful; hide Total;
      if terminalId in sessions && sessions[terminalId].pid == pid {
        sessions := sessions[terminalId := sessions[terminalId].(workspaceId := workspaceId)];
      } else {
        sessions := sessions[terminalId := Session(workspaceId, pid, now, 0)];
      }
      intervalRunning := true;
    }

    method UnregisterSession(terminalId: string)
      requires Valid()
      modifies this`sessions, this`ports, this`events, this`intervalRunning, this`hintPending, this`scanRequested, this`forceRequested
      ensures Valid() && old(events) <= events
      ensures sessions == old(sessions) - {terminalId}
      ensures ports == map k | k in old(ports) && old(ports)[k].terminalId != terminalId :: old(ports)[k]
      ensures sessions != map[] ==> scanRequested == old(scanRequested) && forceRequested == old(forceRequested)
      ensures sessions == map[] ==> !scanRequested && !forceRequested && !intervalRunning && !hintPending
      ensures sessions != map[] ==> intervalRunning == old(intervalRunning) && hintPending == old(hintPending)
    {
      hide Faithful; hide Total;
      sessions := sessions - {terminalId};
      RemovePortsForTerminal(terminalId);
      if sessions == map[] {
        StopPeriodicScan();
      }
    }

    method StopPeriodicScan()
      requires Total(collate) && Scheduled()
      modifies this`intervalRunning, this`hintPending, this`scanRequested, this`forceRequested
      ensures Scheduled() && !intervalRunning && !hintPending && !scanRequested && !forceRequested
    {
      intervalRunning, hintPending, scanRequested, forceRequested := false, false, false, false;
    }

    method CheckOutputForHint(terminalId: string, isHint: bool, now: int)
      requires Valid()
      modifies this`sessions, this`hintPending
      ensures Valid()
      ensures sessions == if terminalId in old(sessions)
                          then old(sessions)[terminalId := old(sessions)[terminalId].(lastActivityAt := now)] else old(sessions)
      ensures hintPending == (old(hintPending) || (isHint && !scanRequested))
    {
      hide Faithful; hide Total;
      if terminalId in sessions {
        sessions := sessions[terminalId := sessions[terminalId].(lastActivityAt := now)];
      }
      if hintPending || scanRequested || !isHint {
        return;
      }
      hintPending := true;
    }

    method Tick(now: int)
      requires Valid()
      modifies this`isScanning, this`scanRequested, this`forceRequested, this`suspended
      ensures Valid() && isScanning == (old(isScanning) || sessions != map[])
      ensures scanRequested == (old(scanRequested) || old(isScanning)) && forceRequested == old(forceRequested)
      ensures !old(isScanning) && isScanning ==> suspended == [AwaitingTrees(false, now, Due(sessions, false, now))]
      ensures old(isScanning) ==> suspended == old(suspended)
    {
      hide Faithful; hide Total;
      ScanAllSessions(false, now);
    }

    /** The hint timer fires, unless it was cleared meanwhile. */
    method FireHint(now: int)
      requires Valid()
      modifies this`hintPending, this`isScanning, this`scanRequested, this`forceRequested, this`suspended
      ensures Valid() && !hintPending && forceRequested == old(forceRequested)
      ensures !old(hintPending) ==>
                isScanning == old(isScanning) && scanRequested == old(scanRequested) && suspended == old(suspended)
      ensures old(hintPending) ==>
                && isScanning == (old(isScanning) || sessions != map[])
                && scanRequested == (old(scanRequested) || old(isScanning))
                && (!old(isScanning) && isScanning ==> suspended == [AwaitingTrees(false, now, Due(sessions, false, now))])
                && (old(isScanning) ==> suspended == old(suspended))
    {
      hide Faithful; hide Total;
      if hintPending {
        hintPending := false;
        ScanAllSessions(false, now);
      }
    }

    method ForceScan(now: int)
      requires Valid()
      modifies this`isScanning, this`scanRequested, this`forceRequested, this`suspended
      ensures Valid() && isScanning == (old(isScanning) || sessions != map[])
      ensures scanRequested == (old(scanRequested) || old(isScanning))
      ensures forceRequested == (old(forceRequested) || old(isScanning))
      ensures old(isScanning) ==> suspended == old(suspended)
      ensures !old(isScanning) && isScanning ==> suspended == [AwaitingTrees(true, now, Due(sessions, true, now))]
    {
      hide Faithful; hide Total;
      ScanAllSessions(true, now);
    }
  }

  function Due(sessions: map<string, Session>, force: bool, now: int): map<string, nat> {
    map t | t in sessions && sessions[t].pid.Some? && (force || IsSessionDue(sessions[t], now)) :: sessions[t].pid.value
  }

  function Tree(trees: map<nat, seq<nat>>, pid: nat): seq<nat> {
    if pid in trees then trees[pid] else []
  }

  /** The session is still the one whose tree was asked for. */
  predicate Current(sessions: map<string, Session>, due: map<string, nat>, t: string) {
    t in due && t in sessions && sessions[t].pid == Some(due[t])
  }

  function Stamped(sessions: map<string, Session>, due: map<string, nat>, now: int): map<string, Session> {
    map t | t in sessions :: if Current(sessions, due, t) then sessions[t].(lastScannedAt := now) else sessions[t]
  }

  /** Each process belongs to the first terminal that claims it. */
  function Claim(owners: map<nat, string>, pids: seq<nat>, t: string): (r: map<nat, string>)
    ensures forall p | p in owners :: p in r && r[p] == owners[p]
    ensures forall p | p in pids :: p in r
    ensures forall p | p in r && p !in owners :: p in pids && r[p] == t
  {
    (map p | p in pids :: t) + owners
  }

  /** What the scan took from the table for the sessions that are still current. */
  ghost predicate Reads(state: ScanState, sessions: map<string, Session>, due: map<string, nat>, trees: map<nat, seq<nat>>) {
    && (forall t | t in due && Current(sessions, due, t) ::
          if due[t] in trees && trees[due[t]] != []
          then t in state.terminals && state.terminals[t] == sessions[t].workspaceId
          else t in state.emptyTrees)
    && (forall t | t in state.terminals || t in state.emptyTrees :: Current(sessions, due, t))
    && (forall t | t in state.terminals :: due[t] in trees && trees[due[t]] != [] && forall p | p in trees[due[t]] :: p in state.owners)
    && (forall t | t in state.emptyTrees :: !(due[t] in trees && trees[due[t]] != []))
    && (forall p | p in state.owners ::
          state.owners[p] in state.terminals && due[state.owners[p]] in trees && p in trees[due[state.owners[p]]])
  }

  lemma SelfSame(ports: map<string, DetectedPort>)
    ensures forall t :: SamePorts(ports, ports, t)
  {
  }

  lemma OthersStay(collate: Collation, was: map<string, DetectedPort>, mid: map<string, DetectedPort>, now: map<string, DetectedPort>,
                   t: string, state: ScanState, left: set<string>, infos: seq<PortInfo>)
    requires OthersSame(mid, now, t) && t in left
    requires forall u | u in state.terminals.Keys - left :: Shows(collate, mid, u, Owned(infos, state.owners, u))
    requires forall u | u !in state.terminals.Keys - left :: SamePorts(was, mid, u)
    ensures forall u | u in state.terminals.Keys - left :: Shows(collate, now, u, Owned(infos, state.owners, u))
    ensures forall u | u !in state.terminals.Keys - left && u != t :: SamePorts(was, now, u)
  {
    hide Shows; hide Owned;
    forall u | u in state.terminals.Keys - left ensures Shows(collate, now, u, Owned(infos, state.owners, u)) {
      ShowsStays(collate, mid, now, u, Owned(infos, state.owners, u));
    }
  }

  lemma DatesStay(was: map<string, DetectedPort>, mid: map<string, DetectedPort>, now: map<string, DetectedPort>,
                  t: string, state: ScanState, left: set<string>, at: int)
    requires OthersSame(mid, now, t) && t in left && left <= state.terminals.Keys
    requires SamePorts(was, mid, t) && Dated(mid, now, t, state.terminals[t], at)
    requires forall u | u in state.terminals.Keys - left :: Dated(was, mid, u, state.terminals[u], at)
    ensures forall u | u in state.terminals.Keys - (left - {t}) :: Dated(was, now, u, state.terminals[u], at)
  {
    forall u | u in state.terminals.Keys - (left - {t}) ensures Dated(was, now, u, state.terminals[u], at) {
      if u != t {
        assert Dated(was, mid, u, state.terminals[u], at);
      }
    }
  }

  /** An empty tree means the session exited; otherwise its processes are claimed for it. */
  function Noted(state: ScanState, workspaceId: string, pids: seq<nat>, t: string): ScanState {
    if pids == [] then state.(emptyTrees := state.emptyTrees + {t})
    else state.(terminals := state.terminals[t := workspaceId], owners := Claim(state.owners, pids, t))
  }

  lemma ReadsNext(state: ScanState, sessions: map<string, Session>, done: map<string, nat>, trees: map<nat, seq<nat>>,
                  t: string, pid: nat)
    requires Reads(state, sessions, done, trees) && t !in done
    ensures if t in sessions && sessions[t].pid == Some(pid)
            then Reads(Noted(state, sessions[t].workspaceId, Tree(trees, pid), t), sessions, done[t := pid], trees)
            else Reads(state, sessions, done[t := pid], trees)
  {
    hide Reads, Noted;
    if t in sessions && sessions[t].pid == Some(pid) {
      ReadsNoted(state, sessions, done, trees, t, pid);
    } else {
      ReadsSkipped(state, sessions, done, trees, t, pid);
    }
  }

  lemma ReadsSkipped(state: ScanState, sessions: map<string, Session>, done: map<string, nat>, trees: map<nat, seq<nat>>,
                     t: string, pid: nat)
    requires Reads(state, sessions, done, trees) && t !in done && !(t in sessions && sessions[t].pid == Some(pid))
    ensures Reads(state, sessions, done[t := pid], trees)
  {
    assert forall u | u in done :: Current(sessions, done[t := pid], u) <==> Current(sessions, done, u);
  }

  lemma ReadsNoted(state: ScanState, sessions: map<string, Session>, done: map<string, nat>, trees: map<nat, seq<nat>>,
                   t: string, pid: nat)
    requires Reads(state, sessions, done, trees) && t !in done && t in sessions && sessions[t].pid == Some(pid)
    ensures Reads(Noted(state, sessions[t].workspaceId, Tree(trees, pid), t), sessions, done[t := pid], trees)
  {
    hide Claim;
    var due := done[t := pid];
    assert forall u | u in done :: Current(sessions, due, u) <==> Current(sessions, done, u);
    assert Current(sessions, due, t);
  }

  lemma ReadsNone(sessions: map<string, Session>, trees: map<nat, seq<nat>>)
    ensures Reads(ScanState(map[], map[], {}), sessions, map[], trees)
  {
  }

  lemma ReadsDisjoint(state: ScanState, sessions: map<string, Session>, due: map<string, nat>, trees: map<nat, seq<nat>>)
    requires Reads(state, sessions, due, trees)
    ensures state.terminals.Keys !! state.emptyTrees
  {
  }

  lemma StampedKeys(sessions: map<string, Session>, due: map<string, nat>, now: int)
    ensures Stamped(sessions, due, now).Keys == sessions.Keys
  {
  }

  lemma StampedNone(sessions: map<string, Session>, now: int)
    ensures Stamped(sessions, map[], now) == sessions
  {
  }

  lemma StampedNext(sessions: map<string, Session>, done: map<string, nat>, now: int, t: string, pid: nat)
    requires t !in done
    ensures var mid := Stamped(sessions, done, now);
            && (t in mid <==> t in sessions) && (t in mid ==> mid[t] == sessions[t])
            && Stamped(sessions, done[t := pid], now) ==
                 if t in mid && mid[t].pid == Some(pid) then mid[t := mid[t].(lastScannedAt := now)] else mid
  {
  }

  lemma ShowsStays(collate: Collation, was: map<string, DetectedPort>, now: map<string, DetectedPort>, terminalId: string,
                   infos: seq<PortInfo>)
    requires Shows(collate, was, terminalId, infos) && SamePorts(was, now, terminalId)
    ensures Shows(collate, now, terminalId, infos)
  {
  }

  function KeysOf(terminalId: string, infos: seq<PortInfo>): set<string> {
    if infos == [] then {}
    else KeysOf(terminalId, infos[..|infos| - 1]) + {MakeKey(terminalId, infos[|infos| - 1].port)}
  }

  /** The index with the listed listeners entered. */
  function Overlay(was: map<string, DetectedPort>, terminalId: string, workspaceId: string,
                   infos: seq<PortInfo>, at: int): map<string, DetectedPort>
  {
    if infos == [] then was
    else
      var last := infos[|infos| - 1];
      Overlay(was, terminalId, workspaceId, infos[..|infos| - 1], at)
        [MakeKey(terminalId, last.port) := Entry(was, terminalId, workspaceId, last, at)]
  }

  lemma LastKeyNew(terminalId: string, infos: seq<PortInfo>)
    requires PortsIncrease(infos) && infos != []
    ensures forall info | info in infos[..|infos| - 1] ::
              MakeKey(terminalId, info.port) != MakeKey(terminalId, infos[|infos| - 1].port)
  {
    hide MakeKey;
    var last := infos[|infos| - 1];
    forall info | info in infos[..|infos| - 1] ensures MakeKey(terminalId, info.port) != MakeKey(terminalId, last.port) {
      if MakeKey(terminalId, info.port) == MakeKey(terminalId, last.port) {
        MakeKeyInjective(terminalId, info.port, terminalId, last.port);
      }
    }
  }

  lemma {:induction false} OverlaySpec(was: map<string, DetectedPort>, terminalId: string, workspaceId: string,
                                       infos: seq<PortInfo>, at: int)
    requires PortsIncrease(infos)
    ensures var now, keys := Overlay(was, terminalId, workspaceId, infos, at), KeysOf(terminalId, infos);
            && now.Keys == was.Keys + keys
            && (forall k | k in was && k !in keys :: now[k] == was[k])
            && (forall info | info in infos ::
                  && MakeKey(terminalId, info.port) in keys
                  && now[MakeKey(terminalId, info.port)] == Entry(was, terminalId, workspaceId, info, at))
            && (forall k | k in keys :: exists info :: info in infos && k == MakeKey(terminalId, info.port))
  {
    KeysOfSpec(terminalId, infos);
    OverlayKeys(was, terminalId, workspaceId, infos, at);
    OverlayEntries(was, terminalId, workspaceId, infos, at);
  }

  lemma {:induction false} KeysOfSpec(terminalId: string, infos: seq<PortInfo>)
    ensures forall info | info in infos :: MakeKey(terminalId, info.port) in KeysOf(terminalId, infos)
    ensures forall k | k in KeysOf(terminalId, infos) :: exists info :: info in infos && k == MakeKey(terminalId, info.port)
  {
    hide MakeKey;
    if infos != [] {
      var init, last := infos[..|infos| - 1], infos[|infos| - 1];
      KeysOfSpec(terminalId, init);
      assert infos == init + [last];
      forall k | k in KeysOf(terminalId, infos) ensures exists info :: info in infos && k == MakeKey(terminalId, info.port) {
        if k == MakeKey(terminalId, last.port) {
          assert last in infos;
        } else {
          var info :| info in init && k == MakeKey(terminalId, info.port);
          assert info in infos;
        }
      }
    }
  }

  lemma {:induction false} OverlayKeys(was: map<string, DetectedPort>, terminalId: string, workspaceId: string,
                                       infos: seq<PortInfo>, at: int)
    ensures var now, keys := Overlay(was, terminalId, workspaceId, infos, at), KeysOf(terminalId, infos);
            now.Keys == was.Keys + keys && forall k | k in was && k !in keys :: now[k] == was[k]
  {
    hide MakeKey, Entry;
    if infos != [] {
      OverlayKeys(was, terminalId, workspaceId, infos[..|infos| - 1], at);
    }
  }

  lemma {:induction false} OverlayEntries(was: map<string, DetectedPort>, terminalId: string, workspaceId: string,
                                          infos: seq<PortInfo>, at: int)
    requires PortsIncrease(infos)
    ensures var now := Overlay(was, terminalId, workspaceId, infos, at);
            forall info | info in infos :: MakeKey(terminalId, info.port) in now
              && now[MakeKey(terminalId, info.port)] == Entry(was, terminalId, workspaceId, info, at)
  {
    hide MakeKey, Entry, KeysOf;
    if infos != [] {
      var init, last := infos[..|infos| - 1], infos[|infos| - 1];
      OverlayEntries(was, terminalId, workspaceId, init, at);
      LastKeyNew(terminalId, infos);
      assert infos == init + [last];
    }
  }

  lemma OverlayElsewhere(was: map<string, DetectedPort>, terminalId: string, workspaceId: string,
                         infos: seq<PortInfo>, i: nat, at: int)
    requires i < |infos| && PortsIncrease(infos)
    ensures var mid := Overlay(was, terminalId, workspaceId, infos[..i], at);
            Entry(mid, terminalId, workspaceId, infos[i], at) == Entry(was, terminalId, workspaceId, infos[i], at)
  {
    hide MakeKey;
    OverlaySpec(was, terminalId, workspaceId, infos[..i], at);
    var key := MakeKey(terminalId, infos[i].port);
    if key in KeysOf(terminalId, infos[..i]) {
      var info :| info in infos[..i] && key == MakeKey(terminalId, info.port);
      MakeKeyInjective(terminalId, info.port, terminalId, infos[i].port);
    }
  }

  lemma ChosenAreDeduped(collate: Collation, infos: seq<PortInfo>, deduped: seq<PortInfo>)
    requires Total(collate) && Deduped(collate, DropIgnored(infos), deduped)
    ensures forall info :: Chosen(collate, infos, info) <==> info in deduped
  {
    hide Preferred, Total, Chosen, PortsIncrease;
    var valid := DropIgnored(infos);
    forall info ensures Chosen(collate, infos, info) <==> info in deduped {
      ChosenIsPreferred(collate, infos, info);
      if Chosen(collate, infos, info) {
        var r :| r in deduped && r.port == info.port;
        OnePreferred(collate, valid, info, r);
      }
    }
  }

  lemma ChosenIsPreferred(collate: Collation, infos: seq<PortInfo>, info: PortInfo)
    ensures Chosen(collate, infos, info) <==> Preferred(collate, DropIgnored(infos), info)
    ensures Chosen(collate, infos, info) ==> info in DropIgnored(infos)
  {
    hide Compare;
  }

  lemma UpdateDone(events: seq<PortEvent>, was: map<string, DetectedPort>, now: map<string, DetectedPort>,
                   terminalId: string, workspaceId: string, deduped: seq<PortInfo>, at: int)
    requires Faithful(events, was) && PortsIncrease(deduped)
    requires var shown, keys := Overlay(was, terminalId, workspaceId, deduped, at), KeysOf(terminalId, deduped);
             now == shown - (set k | k in shown && shown[k].terminalId == terminalId && k !in keys)
    ensures OthersSame(was, now, terminalId) && Dated(was, now, terminalId, workspaceId, at)
    ensures forall info | info in deduped ::
              && MakeKey(terminalId, info.port) in now
              && now[MakeKey(terminalId, info.port)] == Entry(was, terminalId, workspaceId, info, at)
              && SlotOf(now[MakeKey(terminalId, info.port)]) == (terminalId, info.port)
    ensures forall k | k in now && now[k].terminalId == terminalId ::
              exists info :: info in deduped && k == MakeKey(terminalId, info.port)
  {
    hide MakeKey; hide Faithful;
    OverlaySpec(was, terminalId, workspaceId, deduped, at);
    var shown, keys := Overlay(was, terminalId, workspaceId, deduped, at), KeysOf(terminalId, deduped);
    forall info | info in deduped && MakeKey(terminalId, info.port) in was
      ensures SlotOf(was[MakeKey(terminalId, info.port)]) == (terminalId, info.port)
    {
      KeySlot(events, was, terminalId, info.port);
    }
    forall k | k in keys ensures shown[k].terminalId == terminalId && (k in was ==> was[k].terminalId == terminalId) {
      var info :| info in deduped && k == MakeKey(terminalId, info.port);
      if k in was {
        KeySlot(events, was, terminalId, info.port);
      }
    }
  }

  lemma ShowsDeduped(collate: Collation, was: map<string, DetectedPort>, now: map<string, DetectedPort>, terminalId: string,
                     workspaceId: string, infos: seq<PortInfo>, deduped: seq<PortInfo>, at: int)
    requires forall info :: Chosen(collate, infos, info) <==> info in deduped
    requires forall info | info in deduped ::
               && MakeKey(terminalId, info.port) in now
               && now[MakeKey(terminalId, info.port)] == Entry(was, terminalId, workspaceId, info, at)
               && SlotOf(now[MakeKey(terminalId, info.port)]) == (terminalId, info.port)
    requires forall k | k in now && now[k].terminalId == terminalId ::
               exists info :: info in deduped && k == MakeKey(terminalId, info.port)
    ensures Shows(collate, now, terminalId, infos)
  {
    hide MakeKey; hide Chosen;
  }
}
