/** Invariants of the window manager and their preservation by every transition. */
module ManagerInvariants {
  import opened WindowTypes
  import opened WindowManager

  predicate NoDuplicates(s: seq<Ref>) {
    forall i, j :: 0 <= i < j < |s| ==> s[i] != s[j]
  }

  /** Safety invariant, kept by every transition:
      - each window's counter equals its number of messages;
      - a window is closed exactly when it has been handed to the processor,
        and no window is handed over twice;
      - pending replacements are for closed windows;
      - every open window still has its flusher;
      - each registry entry holds a window of that topic and partition. */
  ghost predicate Inv(m: Manager) {
    && Valid(m)
    && (forall r :: r in m.instances ==> CountMatches(m.instances[r]))
    && (forall r :: r in m.instances ==> (m.instances[r].isClosed <==> r in m.processed))
    && (forall i :: 0 <= i < |m.processed| ==> m.processed[i] in m.instances)
    && NoDuplicates(m.processed)
    && (forall r :: r in m.handOffs ==> m.instances[r].isClosed)
    && (forall r :: r in m.instances && !m.instances[r].isClosed ==> r in m.flushers)
    && (forall k :: k in m.registry ==> KeyOf(m.instances[m.registry[k]]) == k)
  }

  lemma NewManagerInv(config: TopicConfig)
    ensures Inv(NewManager(config))
  {
  }

  lemma InstallInv(m: Manager, topic: string, partition: int, startTime: int)
    requires Inv(m)
    ensures Inv(Install(m, topic, partition, startTime))
  {
    var r := Install(m, topic, partition, startTime);
    assert m.nextRef !in m.processed;
  }

  lemma CloseWindowInv(m: Manager, ref: Ref, now: int)
    requires Inv(m) && ref in m.instances
    ensures Inv(CloseWindow(m, ref, now))
  {
    var r := CloseWindow(m, ref, now);
    if !m.instances[ref].isClosed {
      assert ref !in m.processed;
      AppendFresh(m.processed, ref);
      forall o | o in r.instances
        ensures r.instances[o].isClosed <==> o in r.processed
      {
        assert o in r.processed <==> o in m.processed || o == ref;
      }
    }
  }

  /** Appending an element not yet present keeps a sequence free of duplicates. */
  lemma AppendFresh(s: seq<Ref>, x: Ref)
    requires NoDuplicates(s) && x !in s
    ensures NoDuplicates(s + [x])
  {
    forall i, j | 0 <= i < j < |s + [x]|
      ensures (s + [x])[i] != (s + [x])[j]
    {
      if j == |s| {
        assert (s + [x])[i] == s[i];
      }
    }
  }

  lemma WindowForInv(m: Manager, msg: RawMessage)
    requires Inv(m)
    ensures Inv(WindowFor(m, msg))
  {
    if RegistryKey(msg.topic, msg.partition) !in m.registry {
      InstallInv(m, msg.topic, msg.partition, msg.timestamp);
    }
  }

  lemma AppendInv(m: Manager, ref: Ref, msg: RawMessage)
    requires Inv(m) && ref in m.instances
    ensures Inv(Append(m, ref, msg))
  {
    var r := Append(m, ref, msg);
    forall k | k in r.registry
      ensures KeyOf(r.instances[r.registry[k]]) == k
    {
      assert KeyOf(m.instances[m.registry[k]]) == k;
    }
  }

  lemma AddMessageInv(m: Manager, msg: RawMessage, now: int)
    requires Inv(m)
    ensures Inv(WindowManager.AddMessage(m, msg, now))
  {
    WindowForInv(m, msg);
    var m1 := WindowFor(m, msg);
    var ref := m1.registry[RegistryKey(msg.topic, msg.partition)];
    AppendInv(m1, ref, msg);
    var m2 := Append(m1, ref, msg);
    if ReachedMax(m.config, m2.instances[ref]) {
      CloseWindowInv(m2, ref, now);
    }
  }

  lemma TickInv(m: Manager, ref: Ref, now: int)
    requires Inv(m) && ref in m.flushers
    ensures Inv(Tick(m, ref, now))
  {
    var w := m.instances[ref];
    if !w.isClosed && now - w.startTime >= Duration(m.config) {
      CloseWindowInv(m, ref, now);
    }
  }

  lemma FlushInv(m: Manager, ref: Ref, now: int)
    requires Inv(m) && ref in m.flushers && m.flushQueued
    ensures Inv(Flush(m, ref, now))
  {
    var m1 := m.(flushQueued := false, flushers := m.flushers - {ref});
    if !m.instances[ref].isClosed {
      assert Inv(m1.(flushers := m.flushers));
      CloseWindowInv(m1.(flushers := m.flushers), ref, now);
    }
  }

  lemma ReplaceInv(m: Manager, ref: Ref, now: int)
    requires Inv(m) && ref in m.handOffs
    ensures Inv(Replace(m, ref, now))
  {
    var w := m.instances[ref];
    InstallInv(Retire(m, ref), w.topic, w.partition, now);
  }

  lemma StepInv(m: Manager, e: Event)
    requires Inv(m)
    ensures Step(m, e).Some? ==> Inv(Step(m, e).value)
  {
    match e
    case StartPartition(p, now) => InstallInv(m, m.config.name, p, now);
    case Ingest(msg, now) => AddMessageInv(m, msg, now);
    case TimerTick(ref, now) => if ref in m.flushers { TickInv(m, ref, now); }
    case FlushReceived(ref, now) => if ref in m.flushers && m.flushQueued { FlushInv(m, ref, now); }
    case ProcessingDone(ref, now) => if ref in m.handOffs { ReplaceInv(m, ref, now); }
    case FlushAll =>
  }

  lemma {:induction false} RunInv(m: Manager, events: seq<Event>)
    requires Inv(m)
    ensures Run(m, events).Some? ==> Inv(Run(m, events).value)
    decreases |events|
  {
    if events != [] {
      StepInv(m, events[0]);
      if Step(m, events[0]).Some? {
        RunInv(Step(m, events[0]).value, events[1..]);
      }
    }
  }

  /** In every reachable state no window has been handed to the processor twice,
      the windows handed over are exactly the closed ones, and every counter
      equals its window's number of messages. */
  lemma HandedOffAtMostOnce(config: TopicConfig, events: seq<Event>)
    ensures var r := Run(NewManager(config), events);
      r.Some? ==>
        && NoDuplicates(r.value.processed)
        && (forall ref :: ref in r.value.instances ==> (r.value.instances[ref].isClosed <==> ref in r.value.processed))
        && (forall ref :: ref in r.value.instances ==> CountMatches(r.value.instances[ref]))
  {
    NewManagerInv(config);
    RunInv(NewManager(config), events);
  }

  /** Nothing of `m` is undone in `r`: no instance disappears, a closed window
      stays closed, messages are only appended, a window's identity never
      changes, and the processor's record only grows. */
  ghost predicate Grows(m: Manager, r: Manager) {
    && m.processed <= r.processed
    && m.nextRef <= r.nextRef
    && forall ref :: ref in m.instances ==>
         && ref in r.instances
         && (m.instances[ref].isClosed ==> r.instances[ref].isClosed)
         && m.instances[ref].messages <= r.instances[ref].messages
         && r.instances[ref].id == m.instances[ref].id
         && r.instances[ref].topic == m.instances[ref].topic
         && r.instances[ref].partition == m.instances[ref].partition
         && r.instances[ref].startTime == m.instances[ref].startTime
  }

  lemma AddMessageGrows(m: Manager, msg: RawMessage, now: int)
    requires Valid(m)
    ensures Grows(m, WindowManager.AddMessage(m, msg, now))
  {
    var r := WindowManager.AddMessage(m, msg, now);
    var ref := r.registry[RegistryKey(msg.topic, msg.partition)];
    if ref in m.instances {
      assert m.instances[ref].messages <= r.instances[ref].messages;
    }
  }

  lemma TickGrows(m: Manager, ref: Ref, now: int)
    requires Valid(m) && ref in m.flushers
    ensures Grows(m, Tick(m, ref, now))
  {
  }

  lemma FlushGrows(m: Manager, ref: Ref, now: int)
    requires Valid(m) && ref in m.flushers && m.flushQueued
    ensures Grows(m, Flush(m, ref, now))
  {
  }

  lemma ReplaceGrows(m: Manager, ref: Ref, now: int)
    requires Valid(m) && ref in m.handOffs
    ensures Grows(m, Replace(m, ref, now))
  {
  }

  /** No event undoes anything. */
  lemma StepMonotone(m: Manager, e: Event)
    requires Valid(m)
    ensures Step(m, e).Some? ==> Grows(m, Step(m, e).value)
  {
    match e
    case StartPartition(p, now) =>
    case Ingest(msg, now) => AddMessageGrows(m, msg, now);
    case TimerTick(ref, now) => if ref in m.flushers { TickGrows(m, ref, now); }
    case FlushReceived(ref, now) => if ref in m.flushers && m.flushQueued { FlushGrows(m, ref, now); }
    case ProcessingDone(ref, now) => if ref in m.handOffs { ReplaceGrows(m, ref, now); }
    case FlushAll =>
  }

  /** Each ingested message lands in exactly one window: the one registered for
      its key, possibly created for it. No other window's messages change. */
  lemma IngestLandsInOneWindow(m: Manager, msg: RawMessage, now: int)
    requires Valid(m)
    ensures var r := WindowManager.AddMessage(m, msg, now);
      var ref := r.registry[RegistryKey(msg.topic, msg.partition)];
      && r.instances.Keys <= m.instances.Keys + {ref}
      && r.instances[ref].messages == (if ref in m.instances then m.instances[ref].messages else []) + [msg]
      && forall o :: o in r.instances && o != ref ==> o in m.instances && r.instances[o].messages == m.instances[o].messages
  {
  }

  /** A window is registered when its own key maps to it. */
  ghost predicate Registered(m: Manager, ref: Ref)
    requires ref in m.instances
  {
    var k := KeyOf(m.instances[ref]);
    k in m.registry && m.registry[k] == ref
  }

  /** The rotation shape: a registered window is either open, or closed and
      awaiting its replacement; a window that has left the registry is closed
      and no longer awaited. So the closed window stays registered until its
      replacement step runs. */
  ghost predicate Shape(m: Manager) {
    && Inv(m)
    && (forall ref :: ref in m.instances ==>
          (ref in m.handOffs <==> Registered(m, ref) && m.instances[ref].isClosed))
    && (forall ref :: ref in m.instances && !Registered(m, ref) ==> m.instances[ref].isClosed)
  }

  lemma NewManagerShape(config: TopicConfig)
    ensures Shape(NewManager(config))
  {
  }

  lemma InstallShape(m: Manager, topic: string, partition: int, startTime: int)
    requires Shape(m) && RegistryKey(topic, partition) !in m.registry
    ensures Shape(Install(m, topic, partition, startTime))
  {
    InstallInv(m, topic, partition, startTime);
    var r := Install(m, topic, partition, startTime);
    var key := RegistryKey(topic, partition);
    forall ref | ref in m.instances
      ensures Registered(r, ref) == Registered(m, ref)
    {
      if KeyOf(m.instances[ref]) == key {
        assert key !in m.registry;
      }
    }
    assert Registered(r, m.nextRef);
  }

  lemma CloseWindowShape(m: Manager, ref: Ref, now: int)
    requires Shape(m) && ref in m.instances
    ensures Shape(CloseWindow(m, ref, now))
  {
    CloseWindowInv(m, ref, now);
    var r := CloseWindow(m, ref, now);
    forall o | o in m.instances
      ensures Registered(r, o) == Registered(m, o)
    {
    }
  }

  lemma WindowForShape(m: Manager, msg: RawMessage)
    requires Shape(m)
    ensures Shape(WindowFor(m, msg))
  {
    if RegistryKey(msg.topic, msg.partition) !in m.registry {
      InstallShape(m, msg.topic, msg.partition, msg.timestamp);
    }
  }

  lemma AppendShape(m: Manager, ref: Ref, msg: RawMessage)
    requires Shape(m) && ref in m.instances
    ensures Shape(Append(m, ref, msg))
  {
    AppendInv(m, ref, msg);
    var r := Append(m, ref, msg);
    forall o | o in m.instances
      ensures Registered(r, o) == Registered(m, o)
    {
    }
  }

  lemma AddMessageShape(m: Manager, msg: RawMessage, now: int)
    requires Shape(m)
    ensures Shape(WindowManager.AddMessage(m, msg, now))
  {
    WindowForShape(m, msg);
    var m1 := WindowFor(m, msg);
    var ref := m1.registry[RegistryKey(msg.topic, msg.partition)];
    AppendShape(m1, ref, msg);
    var m2 := Append(m1, ref, msg);
    if ReachedMax(m.config, m2.instances[ref]) {
      CloseWindowShape(m2, ref, now);
    }
  }

  lemma TickShape(m: Manager, ref: Ref, now: int)
    requires Shape(m) && ref in m.flushers
    ensures Shape(Tick(m, ref, now))
  {
    TickInv(m, ref, now);
    var w := m.instances[ref];
    if !w.isClosed && now - w.startTime >= Duration(m.config) {
      CloseWindowShape(m, ref, now);
    }
  }

  lemma FlushShape(m: Manager, ref: Ref, now: int)
    requires Shape(m) && ref in m.flushers && m.flushQueued
    ensures Shape(Flush(m, ref, now))
  {
    FlushInv(m, ref, now);
    if !m.instances[ref].isClosed {
      CloseWindowShape(m, ref, now);
      ShapeFrame(CloseWindow(m, ref, now), Flush(m, ref, now));
    } else {
      ShapeFrame(m, Flush(m, ref, now));
    }
  }

  /** Shape reads only the instances, the registry and the hand-offs. */
  lemma ShapeFrame(a: Manager, b: Manager)
    requires Shape(a) && Inv(b)
    requires b.instances == a.instances && b.registry == a.registry && b.handOffs == a.handOffs
    ensures Shape(b)
  {
  }

  lemma RetireShape(m: Manager, ref: Ref)
    requires Shape(m) && ref in m.handOffs
    ensures Shape(Retire(m, ref))
  {
    var r := Retire(m, ref);
    assert Registered(m, ref);
    assert !Registered(r, ref);
    forall o | o in m.instances && o != ref
      ensures Registered(r, o) == Registered(m, o)
    {
    }
    assert Inv(r);
    forall o | o in r.instances
      ensures o in r.handOffs <==> Registered(r, o) && r.instances[o].isClosed
    {
    }
    forall o | o in r.instances && !Registered(r, o)
      ensures r.instances[o].isClosed
    {
    }
  }

  lemma ReplaceShape(m: Manager, ref: Ref, now: int)
    requires Shape(m) && ref in m.handOffs
    ensures Shape(Replace(m, ref, now))
  {
    var w := m.instances[ref];
    RetireShape(m, ref);
    InstallShape(Retire(m, ref), w.topic, w.partition, now);
  }

  /** Start is called once per partition, before that partition has a window. */
  predicate StartsFresh(m: Manager, e: Event) {
    e.StartPartition? ==> RegistryKey(m.config.name, e.partition) !in m.registry
  }

  lemma StepShape(m: Manager, e: Event)
    requires Shape(m) && StartsFresh(m, e)
    ensures Step(m, e).Some? ==> Shape(Step(m, e).value)
  {
    if Step(m, e).Some? {
      StepValueShape(m, e);
    }
  }

  /** StepShape for an event that can occur. */
  lemma StepValueShape(m: Manager, e: Event)
    requires Shape(m) && StartsFresh(m, e) && Enabled(m, e)
    ensures Shape(Step(m, e).value)
  {
    match e
    case StartPartition(p, now) => InstallShape(m, m.config.name, p, now);
    case Ingest(msg, now) => AddMessageShape(m, msg, now);
    case TimerTick(ref, now) => TickShape(m, ref, now);
    case FlushReceived(ref, now) => FlushShape(m, ref, now);
    case ProcessingDone(ref, now) => ReplaceShape(m, ref, now);
    case FlushAll =>
  }

  /** At most one replacement is outstanding per key. */
  lemma OneHandOffPerKey(m: Manager, p: Ref, q: Ref)
    requires Shape(m) && p in m.handOffs && q in m.handOffs
    requires KeyOf(m.instances[p]) == KeyOf(m.instances[q])
    ensures p == q
  {
    assert Registered(m, p) && Registered(m, q);
  }

  /** During the gap between closing and replacement the closed window is still
      registered: a message for its key is appended to it, and because it is
      already closed, nothing is handed to the processor a second time. */
  lemma LateMessageAppendsToClosedWindow(m: Manager, msg: RawMessage, now: int)
    requires Shape(m)
    requires var k := RegistryKey(msg.topic, msg.partition);
      k in m.registry && m.instances[m.registry[k]].isClosed
    ensures var k := RegistryKey(msg.topic, msg.partition);
      var ref := m.registry[k];
      var r := WindowManager.AddMessage(m, msg, now);
      && ref in m.handOffs
      && r.registry[k] == ref
      && r.instances[ref].isClosed
      && r.instances[ref].messages == m.instances[ref].messages + [msg]
      && r.processed == m.processed
  {
    var k := RegistryKey(msg.topic, msg.partition);
    var ref := m.registry[k];
    assert KeyOf(m.instances[ref]) == k;
    assert Registered(m, ref);
  }

  /** `AddMessage` for a key that already has a window: the window gains the
      message at its end, and it is closed and handed over exactly when it was
      open and has now reached the threshold. */
  lemma IngestRegistered(m: Manager, msg: RawMessage, now: int)
    requires Inv(m) && RegistryKey(msg.topic, msg.partition) in m.registry
    ensures var ref := m.registry[RegistryKey(msg.topic, msg.partition)];
      var w := m.instances[ref];
      var r := WindowManager.AddMessage(m, msg, now);
      var closes := !w.isClosed && ReachedMax(m.config, WindowTypes.AddMessage(w, msg));
      && Inv(r)
      && r.registry == m.registry && r.nextRef == m.nextRef
      && r.instances[ref].messages == w.messages + [msg]
      && r.instances[ref].isClosed == (w.isClosed || closes)
      && r.processed == (if closes then m.processed + [ref] else m.processed)
      && r.handOffs == (if closes then m.handOffs + {ref} else m.handOffs)
      && r.flushers == m.flushers && r.flushQueued == m.flushQueued
  {
    AddMessageInv(m, msg, now);
  }

  /** `AddMessage` for a key without a window: a window started at the message's
      timestamp is created under the next identity, with its flusher, and the
      message is its first. */
  lemma IngestFresh(m: Manager, msg: RawMessage, now: int)
    requires Inv(m) && RegistryKey(msg.topic, msg.partition) !in m.registry
    ensures var ref := m.nextRef;
      var r := WindowManager.AddMessage(m, msg, now);
      var closes := ReachedMax(m.config, WindowTypes.AddMessage(NewWindow(msg.topic, msg.partition, msg.timestamp, m.config.context), msg));
      && Inv(r)
      && r.registry == m.registry[RegistryKey(msg.topic, msg.partition) := ref]
      && r.nextRef == ref + 1
      && r.instances[ref].messages == [msg]
      && r.instances[ref].startTime == msg.timestamp
      && r.instances[ref].isClosed == closes
      && r.processed == (if closes then m.processed + [ref] else m.processed)
      && r.handOffs == (if closes then m.handOffs + {ref} else m.handOffs)
      && r.flushers == m.flushers + {ref} && r.flushQueued == m.flushQueued
  {
    AddMessageInv(m, msg, now);
  }
}
