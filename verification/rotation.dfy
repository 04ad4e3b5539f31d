/** The window manager with rotation in one critical section: when a window is
    closed, the fresh window for its key is registered before the mutex is
    released, instead of after the processor has returned. The processing
    goroutine then only processes. It differs from `WindowManager` in three
    further ways, each a consequence of the rotation:
    - `AddMessage` rotates only a window that is still open;
    - `StartPartition` is refused for a key that already has a window, because
      `Start` runs once per partition;
    - `ProcessingDone` changes nothing, because the replacement has already happened. */
module Rotation {
  import opened Wrappers
  import opened WindowTypes
  import opened WindowManager
  import opened ManagerInvariants

  /** Closes the open window `ref`, hands it to the processor and, at once,
      registers a fresh, empty, open window for its key, with its own flusher. */
  function Rotate(m: Manager, ref: Ref, now: int): (r: Manager)
    requires Valid(m) && ref in m.instances && !m.instances[ref].isClosed
    ensures Valid(r)
    ensures var w := m.instances[ref];
      && m.nextRef !in m.instances
      && r.instances == m.instances[ref := w.(isClosed := true, endTime := Some(now))]
                                   [m.nextRef := NewWindow(w.topic, w.partition, now, m.config.context)]
      && r.registry == m.registry[KeyOf(w) := m.nextRef]
      && r.nextRef == m.nextRef + 1
      && r.processed == m.processed + [ref]
      && r.handOffs == m.handOffs - {ref}
      && r.flushers == m.flushers + {m.nextRef}
      && r.flushQueued == m.flushQueued && r.config == m.config
  {
    var c := CloseWindow(m, ref, now);
    var r := Replace(c, ref, now);
    assert r.registry == m.registry[KeyOf(m.instances[ref]) := m.nextRef];
    r
  }

  /** `AddMessage` with rotation: a window that reaches the threshold is replaced
      in the same step, so later messages of its key go to the new window. */
  function AddMessage(m: Manager, msg: RawMessage, now: int): (r: Manager)
    requires Valid(m)
    ensures Valid(r)
  {
    var m1 := WindowFor(m, msg);
    var ref := m1.registry[RegistryKey(msg.topic, msg.partition)];
    var m2 := Append(m1, ref, msg);
    if ReachedMax(m.config, m2.instances[ref]) && !m2.instances[ref].isClosed then Rotate(m2, ref, now) else m2
  }

  /** The ticker branch with rotation. */
  function Tick(m: Manager, ref: Ref, now: int): (r: Manager)
    requires Valid(m) && ref in m.flushers
    ensures Valid(r)
  {
    var w := m.instances[ref];
    if !w.isClosed && now - w.startTime >= Duration(m.config) then
      var n := Rotate(m, ref, now);
      n.(flushers := n.flushers - {ref})
    else m
  }

  /** The flush branch with rotation. */
  function Flush(m: Manager, ref: Ref, now: int): (r: Manager)
    requires Valid(m) && ref in m.flushers && m.flushQueued
    ensures Valid(r) && !r.flushQueued
  {
    var n := if !m.instances[ref].isClosed then Rotate(m, ref, now) else m;
    n.(flushQueued := false, flushers := n.flushers - {ref})
  }

  /** The manager's events with rotation. `Start` runs once per partition, before
      the partition has a window; the return of the processor changes nothing. */
  function Step(m: Manager, e: Event): (r: Option<Manager>)
    requires Valid(m)
    ensures r.Some? ==> Valid(r.value) && r.value.config == m.config
    ensures e.FlushAll? || e.Ingest? ==> r.Some?
  {
    match e
    case StartPartition(p, now) =>
      if RegistryKey(m.config.name, p) in m.registry then None else Some(Start(m, p, now))
    case Ingest(msg, now) => Some(AddMessage(m, msg, now))
    case TimerTick(ref, now) => if ref in m.flushers then Some(Tick(m, ref, now)) else None
    case FlushReceived(ref, now) =>
      if ref in m.flushers && m.flushQueued then Some(Flush(m, ref, now)) else None
    case ProcessingDone(ref, _) => if ref in m.handOffs then Some(m) else None
    case FlushAll => Some(FlushAllWindows(m))
  }

  function Run(m: Manager, events: seq<Event>): (r: Option<Manager>)
    requires Valid(m)
    ensures r.Some? ==> Valid(r.value) && r.value.config == m.config
    decreases |events|
  {
    if events == [] then Some(m)
    else
      match Step(m, events[0])
      case None => None
      case Some(m') => Run(m', events[1..])
  }

  /** No window holds more than the threshold. */
  ghost predicate WithinMax(m: Manager) {
    m.config.windowMaxMessages > 0 ==>
      forall ref :: ref in m.instances ==> m.instances[ref].messageCount <= m.config.windowMaxMessages
  }

  /** Every registered window other than `except` can take one more message. */
  ghost predicate RoomBut(m: Manager, except: Option<Ref>)
    requires Valid(m)
  {
    m.config.windowMaxMessages > 0 ==>
      forall k :: k in m.registry && Some(m.registry[k]) != except ==>
        m.instances[m.registry[k]].messageCount < m.config.windowMaxMessages
  }

  /** The invariant of the rotating manager: exactly the registered windows are
      open, nothing awaits a replacement, no window is over the threshold and
      every registered window has room for one more message. */
  ghost predicate Bounded(m: Manager) {
    && Shape(m)
    && m.handOffs == {}
    && WithinMax(m)
    && RoomBut(m, None)
  }

  /** In a bounded manager a window is open exactly when it is registered. */
  lemma OpenIffRegistered(m: Manager, ref: Ref)
    requires Bounded(m) && ref in m.instances
    ensures !m.instances[ref].isClosed <==> Registered(m, ref)
  {
    assert ref !in m.handOffs;
  }

  lemma NewManagerBounded(config: TopicConfig)
    ensures Bounded(NewManager(config))
  {
  }

  lemma InstallBounded(m: Manager, topic: string, partition: int, startTime: int)
    requires Bounded(m) && RegistryKey(topic, partition) !in m.registry
    ensures Bounded(Install(m, topic, partition, startTime))
  {
    InstallShape(m, topic, partition, startTime);
  }

  /** Rotating the one registered window that may be full restores the invariant. */
  lemma RotateBounded(m: Manager, ref: Ref, now: int)
    requires Shape(m) && m.handOffs == {} && WithinMax(m) && ref in m.instances
    requires RoomBut(m, Some(ref)) && !m.instances[ref].isClosed
    ensures Bounded(Rotate(m, ref, now))
  {
    RotateShape(m, ref, now);
    RotateRoom(m, ref, now);
  }

  lemma RotateShape(m: Manager, ref: Ref, now: int)
    requires Shape(m) && ref in m.instances && !m.instances[ref].isClosed
    ensures Shape(Rotate(m, ref, now))
  {
    var c := CloseWindow(m, ref, now);
    CloseWindowShape(m, ref, now);
    ReplaceShape(c, ref, now);
  }

  /** The fresh window is empty, and every other registered window keeps its count. */
  lemma RotateRoom(m: Manager, ref: Ref, now: int)
    requires Valid(m) && WithinMax(m) && ref in m.instances
    requires RoomBut(m, Some(ref)) && !m.instances[ref].isClosed
    requires forall k :: k in m.registry ==> KeyOf(m.instances[m.registry[k]]) == k
    requires Registered(m, ref)
    ensures WithinMax(Rotate(m, ref, now)) && RoomBut(Rotate(m, ref, now), None)
  {
    var r := Rotate(m, ref, now);
    var k := KeyOf(m.instances[ref]);
    forall k' | k' in r.registry && k' != k
      ensures r.registry[k'] == m.registry[k'] && r.registry[k'] != ref
    {
    }
  }

  /** The lookup yields an open, registered window with room for the message. */
  lemma WindowForBounded(m: Manager, msg: RawMessage)
    requires Bounded(m)
    ensures var m1 := WindowFor(m, msg);
      var ref := m1.registry[RegistryKey(msg.topic, msg.partition)];
      Bounded(m1) && ref in m1.instances && Registered(m1, ref) && !m1.instances[ref].isClosed
  {
    var key := RegistryKey(msg.topic, msg.partition);
    if key !in m.registry {
      InstallBounded(m, msg.topic, msg.partition, msg.timestamp);
    }
    var m1 := WindowFor(m, msg);
    var ref := m1.registry[key];
    assert KeyOf(m1.instances[ref]) == key;
    OpenIffRegistered(m1, ref);
  }

  /** Appending to an open registered window keeps every window within the
      threshold; only that window may now be full. */
  lemma AppendBounded(m: Manager, ref: Ref, msg: RawMessage)
    requires Bounded(m) && ref in m.instances && Registered(m, ref) && !m.instances[ref].isClosed
    ensures var r := Append(m, ref, msg);
      Shape(r) && r.handOffs == {} && WithinMax(r) && RoomBut(r, Some(ref)) && !r.instances[ref].isClosed
  {
    AppendShape(m, ref, msg);
    assert KeyOf(m.instances[ref]) in m.registry;
  }

  lemma AddMessageBounded(m: Manager, msg: RawMessage, now: int)
    requires Bounded(m)
    ensures Bounded(AddMessage(m, msg, now))
  {
    WindowForBounded(m, msg);
    var m1 := WindowFor(m, msg);
    var ref := m1.registry[RegistryKey(msg.topic, msg.partition)];
    AppendBounded(m1, ref, msg);
    var m2 := Append(m1, ref, msg);
    if ReachedMax(m.config, m2.instances[ref]) {
      RotateBounded(m2, ref, now);
    } else {
      assert RoomBut(m2, None);
    }
  }

  /** Ending the flusher of a closed window, or emptying the flush slot, keeps the invariant. */
  lemma StopFlusherBounded(m: Manager, ref: Ref, queued: bool)
    requires Bounded(m) && (ref in m.instances ==> m.instances[ref].isClosed)
    ensures Bounded(m.(flushQueued := queued, flushers := m.flushers - {ref}))
  {
    var r := m.(flushQueued := queued, flushers := m.flushers - {ref});
    forall o | o in r.instances
      ensures Registered(r, o) == Registered(m, o)
    {
    }
  }

  lemma TickBounded(m: Manager, ref: Ref, now: int)
    requires Bounded(m) && ref in m.flushers
    ensures Bounded(Tick(m, ref, now))
  {
    var w := m.instances[ref];
    if !w.isClosed && now - w.startTime >= Duration(m.config) {
      OpenIffRegistered(m, ref);
      RotateBounded(m, ref, now);
      var n := Rotate(m, ref, now);
      StopFlusherBounded(n, ref, n.flushQueued);
      assert Tick(m, ref, now) == n.(flushQueued := n.flushQueued, flushers := n.flushers - {ref});
    }
  }

  lemma FlushBounded(m: Manager, ref: Ref, now: int)
    requires Bounded(m) && ref in m.flushers && m.flushQueued
    ensures Bounded(Flush(m, ref, now))
  {
    if !m.instances[ref].isClosed {
      OpenIffRegistered(m, ref);
      RotateBounded(m, ref, now);
      StopFlusherBounded(Rotate(m, ref, now), ref, false);
    } else {
      StopFlusherBounded(m, ref, false);
    }
  }

  lemma StepBounded(m: Manager, e: Event)
    requires Bounded(m)
    ensures Step(m, e).Some? ==> Bounded(Step(m, e).value)
  {
    match e
    case StartPartition(p, now) =>
      if RegistryKey(m.config.name, p) !in m.registry { InstallBounded(m, m.config.name, p, now); }
    case Ingest(msg, now) => AddMessageBounded(m, msg, now);
    case TimerTick(ref, now) => if ref in m.flushers { TickBounded(m, ref, now); }
    case FlushReceived(ref, now) => if ref in m.flushers && m.flushQueued { FlushBounded(m, ref, now); }
    case ProcessingDone(_, _) =>
    case FlushAll =>
  }

  lemma {:induction false} RunBounded(m: Manager, events: seq<Event>)
    requires Bounded(m)
    ensures Run(m, events).Some? ==> Bounded(Run(m, events).value)
    decreases |events|
  {
    if events != [] {
      StepBounded(m, events[0]);
      match Step(m, events[0])
      case None =>
      case Some(m') => RunBounded(m', events[1..]);
    }
  }

  /** The intended property: on every run from a fresh manager, no window ever
      holds more messages than the threshold, and each registered window is open. */
  lemma NeverOverThreshold(config: TopicConfig, events: seq<Event>)
    requires config.windowMaxMessages > 0
    ensures var r := Run(NewManager(config), events);
      r.Some? ==>
        && (forall ref :: ref in r.value.instances ==>
              |r.value.instances[ref].messages| <= config.windowMaxMessages)
        && (forall k :: k in r.value.registry ==> !r.value.instances[r.value.registry[k]].isClosed)
  {
    NewManagerBounded(config);
    RunBounded(NewManager(config), events);
    var r := Run(NewManager(config), events);
    if r.Some? {
      BoundedFacts(r.value);
    }
  }

  lemma BoundedFacts(m: Manager)
    requires Bounded(m)
    ensures m.config.windowMaxMessages > 0 ==>
      forall ref :: ref in m.instances ==> |m.instances[ref].messages| <= m.config.windowMaxMessages
    ensures forall k :: k in m.registry ==> !m.instances[m.registry[k]].isClosed
  {
    forall k | k in m.registry
      ensures !m.instances[m.registry[k]].isClosed
    {
      var ref := m.registry[k];
      assert KeyOf(m.instances[ref]) == k;
      OpenIffRegistered(m, ref);
    }
    forall ref | ref in m.instances
      ensures CountMatches(m.instances[ref])
    {
    }
  }

  /** The message that reaches the threshold closes its window, which goes to the
      processor holding exactly the threshold count, and the key is already
      served by a fresh empty window. */
  lemma ThresholdRotates(m: Manager, msg: RawMessage, now: int)
    requires Bounded(m) && m.config.windowMaxMessages > 0
    requires var k := RegistryKey(msg.topic, msg.partition);
      k in m.registry && m.instances[m.registry[k]].messageCount == m.config.windowMaxMessages - 1
    ensures var k := RegistryKey(msg.topic, msg.partition);
      var ref := m.registry[k];
      var r := AddMessage(m, msg, now);
      && r.instances[ref].isClosed
      && r.instances[ref].messages == m.instances[ref].messages + [msg]
      && r.instances[ref].messageCount == m.config.windowMaxMessages
      && r.processed == m.processed + [ref]
      && k in r.registry && r.registry[k] != ref
      && !r.instances[r.registry[k]].isClosed && r.instances[r.registry[k]].messages == []
  {
    var k := RegistryKey(msg.topic, msg.partition);
    var ref := m.registry[k];
    assert KeyOf(m.instances[ref]) == k;
    OpenIffRegistered(m, ref);
  }

  /** A message for a key whose registered window is empty becomes that window's
      only message; no other window changes. */
  lemma IngestIntoEmpty(m: Manager, msg: RawMessage, now: int)
    requires Bounded(m)
    requires var k := RegistryKey(msg.topic, msg.partition);
      k in m.registry && m.instances[m.registry[k]].messages == []
    ensures var ref := m.registry[RegistryKey(msg.topic, msg.partition)];
      var r := AddMessage(m, msg, now);
      && r.instances[ref].messages == [msg] && r.instances[ref].messageCount == 1
      && forall o :: o in m.instances && o != ref ==> r.instances[o] == m.instances[o]
  {
    var ref := m.registry[RegistryKey(msg.topic, msg.partition)];
    assert CountMatches(m.instances[ref]);
    OpenIffRegistered(m, ref);
  }

  /** The threshold case of the corrected manager, message by message: the window
      that takes the threshold-th message is closed with exactly that many, and
      the next message of the key is the first of a new window. */
  lemma NextMessageOpensNewWindow(m: Manager, msg: RawMessage, next: RawMessage, now: int, later: int)
    requires Bounded(m) && m.config.windowMaxMessages > 0
    requires next.topic == msg.topic && next.partition == msg.partition
    requires var k := RegistryKey(msg.topic, msg.partition);
      k in m.registry && m.instances[m.registry[k]].messageCount == m.config.windowMaxMessages - 1
    ensures var k := RegistryKey(msg.topic, msg.partition);
      var ref := m.registry[k];
      var r1 := AddMessage(m, msg, now);
      var r := AddMessage(r1, next, later);
      && r.instances[ref].isClosed
      && r.instances[ref].messageCount == m.config.windowMaxMessages
      && r1.registry[k] != ref
      && r.instances[r1.registry[k]].messages == [next]
  {
    var k := RegistryKey(msg.topic, msg.partition);
    ThresholdRotates(m, msg, now);
    AddMessageBounded(m, msg, now);
    var r1 := AddMessage(m, msg, now);
    IngestIntoEmpty(r1, next, later);
  }
}
