/** The index of detected ports and the event stream listeners see. */
module PortIndex {
  import opened Text

  datatype DetectedPort = DetectedPort(
    port: nat, pid: nat, processName: string, terminalId: string, workspaceId: string, detectedAt: int, address: string)

  datatype PortEvent = Add(item: DetectedPort) | Remove(item: DetectedPort)

  type Slot = (string, nat)

  function SlotOf(p: DetectedPort): Slot {
    (p.terminalId, p.port)
  }

  function MakeKey(terminalId: string, port: nat): string {
    terminalId + ":" + Decimal(port)
  }

  /** Keys of different slots differ, even when a terminal id contains a colon. */
  lemma MakeKeyInjective(t: string, p: nat, t': string, p': nat)
    requires MakeKey(t, p) == MakeKey(t', p')
    ensures t == t' && p == p'
  {
    var k := MakeKey(t, p);
    assert forall i | |t| < i < |k| :: k[i] == Decimal(p)[i - |t| - 1] && k[i] in Decimal(p);
    assert forall i | |t'| < i < |k| :: k[i] == Decimal(p')[i - |t'| - 1] && k[i] in Decimal(p');
    assert k[|t|] == ':' && k[|t'|] == ':';
    assert |t| == |t'|;
    assert k[..|t|] == t && k[..|t'|] == t';
    assert k[|t| + 1..] == Decimal(p) && k[|t'| + 1..] == Decimal(p');
    DecimalInjective(p, p');
  }

  // ---------- replaying the stream ----------

  function Applied(known: map<Slot, DetectedPort>, e: PortEvent): map<Slot, DetectedPort> {
    if e.Add? then known[SlotOf(e.item) := e.item] else known - {SlotOf(e.item)}
  }

  /** A listener is told of a port only when it does not know it, and of its removal as it knows it. */
  predicate Fits(known: map<Slot, DetectedPort>, e: PortEvent) {
    if e.Add? then SlotOf(e.item) !in known
    else SlotOf(e.item) in known && known[SlotOf(e.item)] == e.item
  }

  /** The ports a listener knows after these events. */
  function Replay(events: seq<PortEvent>): map<Slot, DetectedPort> {
    if events == [] then map[]
    else Applied(Replay(events[..|events| - 1]), events[|events| - 1])
  }

  predicate Coherent(events: seq<PortEvent>) {
    events == [] ||
    (Coherent(events[..|events| - 1]) && Fits(Replay(events[..|events| - 1]), events[|events| - 1]))
  }

  /** The events of one slot: true for an addition. */
  function Kinds(events: seq<PortEvent>, slot: Slot): seq<bool> {
    if events == [] then []
    else
      var before := Kinds(events[..|events| - 1], slot);
      var last := events[|events| - 1];
      if SlotOf(last.item) == slot then before + [last.Add?] else before
  }

  /** For each terminal and port, additions and removals strictly alternate, starting with an addition. */
  lemma {:induction false} CoherentAlternates(events: seq<PortEvent>, slot: Slot)
    requires Coherent(events)
    ensures forall i | 0 <= i < |Kinds(events, slot)| :: Kinds(events, slot)[i] == (i % 2 == 0)
    ensures slot in Replay(events) <==> |Kinds(events, slot)| % 2 == 1
  {
    if events != [] {
      CoherentAlternates(events[..|events| - 1], slot);
    }
  }

  // ---------- the index ----------

  predicate WellKeyed(ports: map<string, DetectedPort>) {
    forall k | k in ports :: k == MakeKey(ports[k].terminalId, ports[k].port)
  }

  /** Replaying the events gives exactly the index. */
  ghost predicate Faithful(events: seq<PortEvent>, ports: map<string, DetectedPort>) {
    && Coherent(events)
    && WellKeyed(ports)
    && (forall k | k in ports :: SlotOf(ports[k]) in Replay(events) && Replay(events)[SlotOf(ports[k])] == ports[k])
    && (forall s | s in Replay(events) :: MakeKey(s.0, s.1) in ports)
  }

  lemma Unfold(events: seq<PortEvent>, e: PortEvent)
    ensures Replay(events + [e]) == Applied(Replay(events), e)
    ensures Coherent(events + [e]) <==> Coherent(events) && Fits(Replay(events), e)
  {
    assert (events + [e])[..|events|] == events;
  }

  lemma AddKeepsFaithful(events: seq<PortEvent>, ports: map<string, DetectedPort>, p: DetectedPort)
    requires Faithful(events, ports) && MakeKey(p.terminalId, p.port) !in ports
    ensures Faithful(events + [Add(p)], ports[MakeKey(p.terminalId, p.port) := p])
  {
    hide MakeKey;
    Unfold(events, Add(p));
    var key := MakeKey(p.terminalId, p.port);
    forall k | k in ports ensures SlotOf(ports[k]) != SlotOf(p) {
      assert k == MakeKey(ports[k].terminalId, ports[k].port);
    }
  }

  lemma RemoveKeepsFaithful(events: seq<PortEvent>, ports: map<string, DetectedPort>, key: string)
    requires Faithful(events, ports) && key in ports
    ensures Faithful(events + [Remove(ports[key])], ports - {key})
  {
    hide MakeKey;
    var p := ports[key];
    Unfold(events, Remove(p));
    forall k | k in ports && k != key ensures SlotOf(ports[k]) != SlotOf(p) {
      assert k == MakeKey(ports[k].terminalId, ports[k].port);
    }
    var known := Replay(events);
    forall s | s in known - {SlotOf(p)} ensures MakeKey(s.0, s.1) in ports - {key} {
      if MakeKey(s.0, s.1) == key {
        assert key == MakeKey(p.terminalId, p.port);
        MakeKeyInjective(s.0, s.1, p.terminalId, p.port);
      }
    }
  }

  lemma KeyOf(events: seq<PortEvent>, ports: map<string, DetectedPort>, key: string)
    requires Faithful(events, ports) && key in ports
    ensures key == MakeKey(ports[key].terminalId, ports[key].port)
  {
  }

  /** A key tells its terminal and its port. */
  lemma KeySlot(events: seq<PortEvent>, ports: map<string, DetectedPort>, terminalId: string, port: nat)
    requires Faithful(events, ports) && MakeKey(terminalId, port) in ports
    ensures SlotOf(ports[MakeKey(terminalId, port)]) == (terminalId, port)
  {
    var p := ports[MakeKey(terminalId, port)];
    MakeKeyInjective(terminalId, port, p.terminalId, p.port);
  }
}
