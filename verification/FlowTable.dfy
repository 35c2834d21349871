/** The flow table of the Kafka sink: packets are merged into flows, flows of min packets go
    to the encoding queue, flows that fall silent are cleaned away. Both operations hold the
    table's mutex, so they interleave as wholes. */
module FlowTable {

  datatype Packet = Packet(key: string, tsSec: int, content: seq<int>)

  datatype Flow = Flow(flowId: string, packets: seq<Packet>)

  /** What became of a flow that left the table. */
  datatype Event = Queued(flow: Flow) | TimedOut(flow: Flow, at: int)

  /** The packets of one key, in the order given. */
  function OfKey(packets: seq<Packet>, key: string): seq<Packet> {
    if |packets| == 0 then []
    else
      var last := packets[|packets| - 1];
      OfKey(packets[..|packets| - 1], key) + (if last.key == key then [last] else [])
  }

  lemma {:induction false} OfKeyMore(packets: seq<Packet>, p: Packet, key: string)
    ensures OfKey(packets + [p], key) == OfKey(packets, key) + (if p.key == key then [p] else [])
  {
    assert (packets + [p])[..|packets|] == packets;
  }

  /** The packets of one key in the flows that left, earliest first. */
  function Left(log: seq<Event>, key: string): seq<Packet> {
    if |log| == 0 then []
    else
      var flow := log[|log| - 1].flow;
      Left(log[..|log| - 1], key) + (if flow.flowId == key then flow.packets else [])
  }

  lemma {:induction false} LeftMore(log: seq<Event>, e: Event, key: string)
    ensures Left(log + [e], key) == Left(log, key) + (if e.flow.flowId == key then e.flow.packets else [])
  {
    assert (log + [e])[..|log|] == log;
  }

  function QueuedFlows(log: seq<Event>): seq<Flow> {
    if |log| == 0 then []
    else
      var last := log[|log| - 1];
      QueuedFlows(log[..|log| - 1]) + (if last.Queued? then [last.flow] else [])
  }

  lemma {:induction false} QueuedMore(log: seq<Event>, e: Event)
    ensures QueuedFlows(log + [e]) == QueuedFlows(log) + (if e.Queued? then [e.flow] else [])
  {
    assert (log + [e])[..|log|] == log;
  }

  /** The packets of this key that are in the table. */
  function Residual(table: map<string, seq<Packet>>, key: string): seq<Packet> {
    if key in table then table[key] else []
  }

  /** For every key: the segments that left, then the rest, are the packets that arrived. */
  ghost predicate Conserved(table: map<string, seq<Packet>>, log: seq<Event>, arrived: seq<Packet>) {
    forall key :: Left(log, key) + Residual(table, key) == OfKey(arrived, key)
  }

  ghost predicate AllOfKey(packets: seq<Packet>, key: string) {
    forall i | 0 <= i < |packets| :: packets[i].key == key
  }

  /** A stored list is not empty, not longer than a flow, and of one key. */
  ghost predicate TableSound(table: map<string, seq<Packet>>, min: nat) {
    forall key | key in table :: 0 < |table[key]| <= min && AllOfKey(table[key], key)
  }

  /** Queued flows have exactly min packets, dropped ones fewer but some; each of one key. */
  ghost predicate EventSound(e: Event, min: nat) {
    && AllOfKey(e.flow.packets, e.flow.flowId)
    && if e.Queued? then |e.flow.packets| == min else 0 < |e.flow.packets| < min
  }

  ghost predicate LogSound(log: seq<Event>, min: nat) {
    forall i | 0 <= i < |log| :: EventSound(log[i], min)
  }

  /** Every list that was dropped had been silent for the timeout, counted from its last packet. */
  ghost predicate AllSilent(log: seq<Event>, timeout: int) {
    forall i | 0 <= i < |log| && log[i].TimedOut? ::
      var list := log[i].flow.packets; |list| > 0 && log[i].at - list[|list| - 1].tsSec >= timeout
  }

  ghost predicate Sound(table: map<string, seq<Packet>>, log: seq<Event>, arrived: seq<Packet>, min: nat) {
    TableSound(table, min) && LogSound(log, min) && Conserved(table, log, arrived)
  }

  // ---- the steps on values ------------------------------------------------------------------

  /** A list leaves the table. */
  lemma {:induction false} FlowLeaves(table: map<string, seq<Packet>>, log: seq<Event>, arrived: seq<Packet>, min: nat,
                                      key: string, e: Event)
    requires Sound(table, log, arrived, min) && key in table && e.flow == Flow(key, table[key])
    requires EventSound(e, min)
    ensures Sound(table - {key}, log + [e], arrived, min)
  {
    hide Left, OfKey;
    forall k ensures Left(log + [e], k) + Residual(table - {key}, k) == OfKey(arrived, k) {
      LeftMore(log, e, k);
      assert Left(log, k) + Residual(table, k) == OfKey(arrived, k);
    }
  }

  /** A packet joins a list that has room, or starts one. */
  lemma {:induction false} PacketJoins(table: map<string, seq<Packet>>, log: seq<Event>, arrived: seq<Packet>, min: nat,
                                       p: Packet)
    requires Sound(table, log, arrived, min) && |Residual(table, p.key)| < min
    ensures Sound(table[p.key := Residual(table, p.key) + [p]], log, arrived + [p], min)
  {
    hide Left, OfKey;
    var next := table[p.key := Residual(table, p.key) + [p]];
    forall k ensures Left(log, k) + Residual(next, k) == OfKey(arrived + [p], k) {
      OfKeyMore(arrived, p, k);
      assert Left(log, k) + Residual(table, k) == OfKey(arrived, k);
      if k == p.key {
        assert Left(log, k) + (Residual(table, k) + [p]) == Left(log, k) + Residual(table, k) + [p];
      }
    }
  }

  // ---- the class --------------------------------------------------------------------------------

  class Sink {
    const minPackets: nat
    const maxPackets: nat
    const flowTimeout: int
    var flowTable: map<string, seq<Packet>>
    var queue: seq<Flow>

    ghost var log: seq<Event>
    ghost var arrived: seq<Packet>

    ghost predicate Valid()
      reads this
    {
      && minPackets >= 1
      && Sound(flowTable, log, arrived, minPackets) && AllSilent(log, flowTimeout)
      && queue == QueuedFlows(log)
    }

    constructor (minPackets: nat, maxPackets: nat, flowTimeout: int)
      requires minPackets >= 1
      ensures Valid() && log == [] && arrived == []
      ensures this.minPackets == minPackets && this.maxPackets == maxPackets && this.flowTimeout == flowTimeout
    {
      this.minPackets, this.maxPackets, this.flowTimeout := minPackets, maxPackets, flowTimeout;
      flowTable, queue, log, arrived := map[], [], [], [];
    }

    /** One packet of merge_to_existing_flow. `withinMax` is the condition of the assertion
        at its end. */
    method MergeOne(p: Packet) returns (withinMax: bool)
      requires Valid()
      modifies this
      ensures Valid() && arrived == old(arrived) + [p]
      ensures var ready := |Residual(old(flowTable), p.key)| >= minPackets;
              var kept := if ready then [] else Residual(old(flowTable), p.key);
              && flowTable == old(flowTable)[p.key := kept + [p]]
              && queue == old(queue) + (if ready then [Flow(p.key, Residual(old(flowTable), p.key))] else [])
              && withinMax == (|kept| + 1 <= maxPackets)
              && log == old(log) + (if ready then [Queued(Flow(p.key, Residual(old(flowTable), p.key)))] else [])
      ensures minPackets <= maxPackets ==> withinMax
    {
      hide Left, OfKey, Conserved, TableSound, LogSound, QueuedFlows;
      var existing := Residual(flowTable, p.key);
      StoredLength(flowTable, log, arrived, minPackets, p.key);
      if |existing| >= minPackets {
        ghost var e := Queued(Flow(p.key, existing));
        StoredKey(flowTable, log, arrived, minPackets, p.key);
        FlowLeaves(flowTable, log, arrived, minPackets, p.key, e);
        QueuedMore(log, e);
        queue := queue + [Flow(p.key, existing)];
        flowTable := flowTable - {p.key};
        log := log + [e];
        existing := [];
      }
      PacketJoins(flowTable, log, arrived, minPackets, p);
      flowTable := flowTable[p.key := existing + [p]];
      arrived := arrived + [p];
      withinMax := |flowTable[p.key]| <= maxPackets;
    }

    /** merge_to_existing_flow */
    method Merge(packets: seq<Packet>) returns (withinMax: bool)
      requires Valid()
      modifies this
      ensures Valid() && arrived == old(arrived) + packets
      ensures minPackets <= maxPackets ==> withinMax
      ensures old(log) <= log && forall i | |old(log)| <= i < |log| :: log[i].Queued?
    {
      hide Valid;
      withinMax := true;
      var i := 0;
      while i < |packets|
        invariant 0 <= i <= |packets| && Valid()
        invariant old(log) <= log && forall k | |old(log)| <= k < |log| :: log[k].Queued?
        invariant arrived == old(arrived) + packets[..i]
        invariant minPackets <= maxPackets ==> withinMax
      {
        var ok := MergeOne(packets[i]);
        withinMax := withinMax && ok;
        assert packets[..i + 1] == packets[..i] + [packets[i]];
        i := i + 1;
      }
      assert packets[..i] == packets;
    }

    /** One pass of cleanUnwantedFlowTask at time `now`, over the keys in any order. */
    method Clean(now: int) returns (ghost order: seq<string>)
      requires Valid()
      modifies this
      ensures Valid() && arrived == old(arrived)
      ensures (forall key :: key in order <==> key in old(flowTable)) && |order| == |old(flowTable)|
      ensures log == old(log) + Departures(order, old(flowTable), minPackets, flowTimeout, now)
      ensures flowTable == map key | key in old(flowTable) && Stays(old(flowTable[key]), minPackets, now, flowTimeout)
                           :: old(flowTable)[key]
    {
      hide Sound, AllSilent, QueuedFlows, Departures, Departure, Stays;
      var todo := flowTable.Keys;
      order := [];
      assert log + [] == log;
      NoDepartures(flowTable, minPackets, flowTimeout, now);
      while todo != {}
        invariant Valid() && arrived == old(arrived) && todo <= flowTable.Keys <= old(flowTable).Keys
        invariant forall key | key in flowTable :: flowTable[key] == old(flowTable)[key]
        invariant forall key :: key in order <==> key in old(flowTable) && key !in todo
        invariant |order| + |todo| == |old(flowTable).Keys|
        invariant log == old(log) + Departures(order, old(flowTable), minPackets, flowTimeout, now)
        invariant forall key | key in old(flowTable) && key !in todo ::
                    key in flowTable <==> Stays(old(flowTable)[key], minPackets, now, flowTimeout)
        decreases |todo|
      {
        var key :| key in todo;
        CleanOne(key, now);
        NextDeparture(order, key, old(flowTable), minPackets, flowTimeout, now);
        order := order + [key];
        todo := todo - {key};
      }
    }

    method CleanOne(key: string, now: int)
      requires Valid() && key in flowTable
      modifies this
      ensures Valid() && arrived == old(arrived)
      ensures log == old(log) + Departure(key, old(flowTable)[key], minPackets, flowTimeout, now)
      ensures flowTable == if Stays(old(flowTable)[key], minPackets, now, flowTimeout) then old(flowTable)
                           else old(flowTable) - {key}
    {
      hide Left, OfKey, Conserved, LogSound, QueuedFlows;
      var list := flowTable[key];
      StoredLength(flowTable, log, arrived, minPackets, key);
      StoredKey(flowTable, log, arrived, minPackets, key);
      if |list| >= minPackets {
        ghost var e := Queued(Flow(key, list));
        FlowLeaves(flowTable, log, arrived, minPackets, key, e);
        QueuedMore(log, e);
        queue := queue + [Flow(key, list)];
        flowTable := flowTable - {key};
        log := log + [e];
      } else if now - list[|list| - 1].tsSec >= flowTimeout {
        ghost var e := TimedOut(Flow(key, list), now);
        FlowLeaves(flowTable, log, arrived, minPackets, key, e);
        QueuedMore(log, e);
        flowTable := flowTable - {key};
        log := log + [e];
      }
    }
  }

  /** A list that the cleaner leaves alone: too short to be encoded and not yet timed out. */
  predicate Stays(list: seq<Packet>, min: nat, now: int, timeout: int) {
    |list| < min && (|list| > 0 ==> now - list[|list| - 1].tsSec < timeout)
  }

  /** What the cleaner makes of a list */
  function Departure(key: string, list: seq<Packet>, min: nat, timeout: int, now: int): seq<Event> {
    if Stays(list, min, now, timeout) then []
    else if |list| >= min then [Queued(Flow(key, list))]
    else [TimedOut(Flow(key, list), now)]
  }

  function Departures(order: seq<string>, table: map<string, seq<Packet>>, min: nat, timeout: int, now: int): seq<Event> {
    if |order| == 0 then []
    else
      var key := order[|order| - 1];
      Departures(order[..|order| - 1], table, min, timeout, now)
      + (if key in table then Departure(key, table[key], min, timeout, now) else [])
  }

  lemma {:induction false} NoDepartures(table: map<string, seq<Packet>>, min: nat, timeout: int, now: int)
    ensures Departures([], table, min, timeout, now) == []
  {
  }

  lemma {:induction false} NextDeparture(order: seq<string>, key: string, table: map<string, seq<Packet>>, min: nat,
                                          timeout: int, now: int)
    requires key in table
    ensures Departures(order + [key], table, min, timeout, now)
            == Departures(order, table, min, timeout, now) + Departure(key, table[key], min, timeout, now)
  {
    assert (order + [key])[..|order|] == order;
  }

  /** In a pass at `now` a list is queued exactly if it has min packets, and dropped exactly if it has
      fewer and the last one is at least the timeout old; what leaves is the whole list. */
  lemma {:induction false} DepartsExactly(order: seq<string>, table: map<string, seq<Packet>>, min: nat, timeout: int, now: int,
                                           e: Event)
    requires TableSound(table, min)
    ensures e in Departures(order, table, min, timeout, now)
            <==> && e.flow.flowId in order && e.flow.flowId in table && e.flow.packets == table[e.flow.flowId]
                 && var list := table[e.flow.flowId];
                    if e.Queued? then |list| >= min
                    else e.at == now && |list| < min && now - list[|list| - 1].tsSec >= timeout
    decreases |order|
  {
    hide AllOfKey;
    if |order| > 0 {
      var front, key := order[..|order| - 1], order[|order| - 1];
      DepartsExactly(front, table, min, timeout, now, e);
      NextOf(front, key, e.flow.flowId);
      assert order == front + [key];
      if key in table { assert |table[key]| > 0; }
    }
  }

  lemma {:induction false} NextOf(front: seq<string>, last: string, key: string)
    ensures key in front + [last] <==> key in front || key == last
  {
  }

  lemma {:induction false} StoredLength(table: map<string, seq<Packet>>, log: seq<Event>, arrived: seq<Packet>, min: nat,
                                        key: string)
    requires Sound(table, log, arrived, min)
    ensures |Residual(table, key)| <= min && (key in table ==> |Residual(table, key)| > 0)
  {
    hide Conserved, LogSound;
  }

  lemma {:induction false} StoredKey(table: map<string, seq<Packet>>, log: seq<Event>, arrived: seq<Packet>, min: nat,
                                     key: string)
    requires Sound(table, log, arrived, min) && |Residual(table, key)| > 0
    ensures key in table && AllOfKey(table[key], key) && 0 < |table[key]| <= min
  {
    hide Conserved, LogSound;
  }

  // ---- whole runs -----------------------------------------------------------------------------------

  /** One whole operation on the table. */
  datatype Op = Merging(packets: seq<Packet>) | Cleaning(now: int)

  function Arrivals(ops: seq<Op>): seq<Packet> {
    if |ops| == 0 then []
    else
      var last := ops[|ops| - 1];
      Arrivals(ops[..|ops| - 1]) + (if last.Merging? then last.packets else [])
  }

  /** Any interleaving of merges and cleaner passes: for every key, the queued and timed-out
      segments in the order of time and then the rest are what arrived; every queued flow has
      exactly minPackets packets of its key. */
  method RunAll(ops: seq<Op>, minPackets: nat, maxPackets: nat, flowTimeout: int) returns (sink: Sink, withinMax: bool)
    requires minPackets >= 1
    ensures sink.Valid()
    ensures forall key :: Left(sink.log, key) + Residual(sink.flowTable, key) == OfKey(Arrivals(ops), key)
    ensures forall flow | flow in sink.queue :: |flow.packets| == minPackets && AllOfKey(flow.packets, flow.flowId)
    ensures minPackets <= maxPackets ==> withinMax
    ensures AllSilent(sink.log, flowTimeout)
  {
    sink := new Sink(minPackets, maxPackets, flowTimeout);
    withinMax := true;
    var i := 0;
    while i < |ops|
      invariant 0 <= i <= |ops| && sink.Valid() && fresh(sink)
      invariant sink.minPackets == minPackets && sink.maxPackets == maxPackets && sink.flowTimeout == flowTimeout
      invariant sink.arrived == Arrivals(ops[..i])
      invariant minPackets <= maxPackets ==> withinMax
    {
      assert ops[..i + 1][..i] == ops[..i];
      match ops[i] {
        case Merging(packets) =>
          var ok := sink.Merge(packets);
          withinMax := withinMax && ok;
        case Cleaning(now) =>
          ghost var order := sink.Clean(now);
      }
      i := i + 1;
    }
    assert ops[..i] == ops;
    QueuedSound(sink.log, minPackets);
  }

  lemma {:induction false} QueuedSound(log: seq<Event>, min: nat)
    requires LogSound(log, min)
    ensures forall flow | flow in QueuedFlows(log) :: |flow.packets| == min && AllOfKey(flow.packets, flow.flowId)
  {
    if |log| > 0 {
      QueuedSound(log[..|log| - 1], min);
      assert EventSound(log[|log| - 1], min);
    }
  }

  /** With min > max the assertion fails: max + 1 packets of one key are enough. */
  method AssertionFails(minPackets: nat, maxPackets: nat, p: Packet) returns (withinMax: bool)
    requires minPackets > maxPackets
    ensures !withinMax
  {
    var sink := new Sink(minPackets, maxPackets, 0);
    var i := 0;
    while i < maxPackets
      invariant 0 <= i <= maxPackets && sink.Valid() && fresh(sink)
      invariant sink.minPackets == minPackets && sink.maxPackets == maxPackets
      invariant |Residual(sink.flowTable, p.key)| == i
    {
      withinMax := sink.MergeOne(p);
      i := i + 1;
    }
    withinMax := sink.MergeOne(p);
  }
}
